/** The sorted list of distinct values of a feature column,
    `sorted(set(features[:, i]))`, from which the splitter takes its
    candidate thresholds. */
module Domain {

  /** Strictly ascending, hence free of repetitions. */
  predicate Increasing(s: seq<real>) {
    forall i, j :: 0 <= i < j < |s| ==> s[i] < s[j]
  }

  /** Inserts `x` into the strictly ascending `s`, unless it is already there. */
  function Insert(x: real, s: seq<real>): (r: seq<real>)
    requires Increasing(s)
    ensures Increasing(r)
    ensures forall y :: y in r <==> y == x || y in s
  {
    if s == [] then [x]
    else if x < s[0] then [x] + s
    else if x == s[0] then s
    else
      var tail := Insert(x, s[1..]);
      assert forall y :: y in tail ==> s[0] < y;
      ConsIncreasing(s[0], tail);
      [s[0]] + tail
  }

  /** Putting a value below every entry in front keeps a list ascending. */
  lemma ConsIncreasing(x: real, t: seq<real>)
    requires Increasing(t)
    requires forall y :: y in t ==> x < y
    ensures Increasing([x] + t)
  {
    var r := [x] + t;
    forall i, j | 0 <= i < j < |r|
      ensures r[i] < r[j]
    {
      assert r[j] == t[j - 1];
      if i == 0 {
        assert t[j - 1] in t;
      } else {
        assert r[i] == t[i - 1];
      }
    }
  }

  /** `sorted(set(s))`: the distinct values of `s`, ascending. */
  function SortedSet(s: seq<real>): (r: seq<real>)
    ensures Increasing(r)
    ensures forall y :: y in r <==> y in s
  {
    if s == [] then [] else Insert(s[0], SortedSet(s[1..]))
  }

  /** The first entry of an ascending list is its minimum. */
  lemma FirstIsLeast(s: seq<real>, y: real)
    requires Increasing(s) && y in s
    ensures s[0] <= y
  {
  }

  /** A column holding one value has at most one distinct value. */
  lemma {:induction false} SingleValue(s: seq<real>, v: real)
    requires forall y :: y in s ==> y == v
    ensures |SortedSet(s)| <= 1
  {
    if s != [] {
      assert s[0] in s;
      assert forall y :: y in s[1..] ==> y in s;
      SingleValue(s[1..], v);
      var rest := SortedSet(s[1..]);
      if rest != [] {
        assert rest[0] in s[1..];
        assert rest == [v];
      }
    }
  }
}
