/** Feature matrices, label vectors and the array operations the tree code
    applies to them: boolean masks (`features[:, i] < d`, `~mask`), masked
    selection (`labels[mask]`), sums and means. */
module Data {

  /** One sample's feature vector; a matrix holds one row per sample. */
  type Row = seq<real>
  type Matrix = seq<Row>

  datatype Option<+T> = None | Some(value: T)

  datatype Result<+T, +E> = Ok(value: T) | Err(error: E)

  /** Every row has `nfeat` entries: a 2-D array of shape (|m|, nfeat). */
  predicate Rect(m: Matrix, nfeat: nat) {
    forall row :: row in m ==> |row| == nfeat
  }

  /** Every entry of `cols` is a column index below `nfeat`. */
  predicate InRange(cols: seq<nat>, nfeat: nat) {
    forall i :: 0 <= i < |cols| ==> cols[i] < nfeat
  }

  /** Number of `true` entries of a mask. */
  function Count(mask: seq<bool>): (n: nat)
    ensures n <= |mask|
  {
    if mask == [] then 0 else (if mask[0] then 1 else 0) + Count(mask[1..])
  }

  /** `~mask` */
  function Flip(mask: seq<bool>): (r: seq<bool>)
    ensures |r| == |mask|
  {
    seq(|mask|, j requires 0 <= j < |mask| => !mask[j])
  }

  /** `m1 & m2`, element by element. */
  function And(m1: seq<bool>, m2: seq<bool>): (r: seq<bool>)
    requires |m1| == |m2|
    ensures |r| == |m1|
  {
    seq(|m1|, j requires 0 <= j < |m1| => m1[j] && m2[j])
  }

  /** `s[mask]`: the entries of `s` where `mask` holds, in their order. */
  function Keep<T>(s: seq<T>, mask: seq<bool>): (r: seq<T>)
    requires |s| == |mask|
    ensures |r| == Count(mask)
    ensures forall x :: x in r ==> x in s
  {
    if s == [] then [] else (if mask[0] then [s[0]] else []) + Keep(s[1..], mask[1..])
  }

  /** `features[:, f] < d` */
  function LessMask(rows: Matrix, f: nat, d: real): (m: seq<bool>)
    requires forall row :: row in rows ==> f < |row|
    ensures |m| == |rows|
  {
    seq(|rows|, j requires 0 <= j < |rows| => rows[j][f] < d)
  }

  /** `s[features[:, f] < d]` */
  function Below<T>(s: seq<T>, rows: Matrix, f: nat, d: real): seq<T>
    requires |s| == |rows|
    requires forall row :: row in rows ==> f < |row|
  {
    Keep(s, LessMask(rows, f, d))
  }

  /** `s[~(features[:, f] < d)]` */
  function AtOrAbove<T>(s: seq<T>, rows: Matrix, f: nat, d: real): seq<T>
    requires |s| == |rows|
    requires forall row :: row in rows ==> f < |row|
  {
    Keep(s, Flip(LessMask(rows, f, d)))
  }

  /** `labels.sum()` */
  function Sum(s: seq<int>): int {
    if s == [] then 0 else s[0] + Sum(s[1..])
  }

  /** `labels.sum() / N`, exact. */
  function Mean(s: seq<int>): real
    requires |s| > 0
  {
    Sum(s) as real / |s| as real
  }

  /** Labels that are all 0 or 1. */
  predicate Binary(s: seq<int>) {
    forall x :: x in s ==> x == 0 || x == 1
  }

  // ---------------------------------------------------------------------
  // Masks and selection

  /** A mask and its complement select every entry exactly once. */
  lemma {:induction false} CountFlip(m: seq<bool>)
    ensures Count(m) + Count(Flip(m)) == |m|
  {
    if m != [] {
      assert Flip(m)[1..] == Flip(m[1..]);
      CountFlip(m[1..]);
    }
  }

  /** A mask with one `true` entry selects something; with one `false` entry
      it leaves something out. */
  lemma {:induction false} CountWitness(m: seq<bool>, j: int)
    requires 0 <= j < |m|
    ensures m[j] ==> Count(m) > 0
    ensures !m[j] ==> Count(m) < |m|
  {
    if j > 0 {
      CountWitness(m[1..], j - 1);
    }
  }

  /** An all-true mask selects the whole sequence. */
  lemma {:induction false} KeepAll<T>(s: seq<T>, mask: seq<bool>)
    requires |s| == |mask|
    requires forall j :: 0 <= j < |mask| ==> mask[j]
    ensures Keep(s, mask) == s
  {
    if s != [] {
      KeepAll(s[1..], mask[1..]);
    }
  }

  /** An entry whose mask bit is set is selected. */
  lemma {:induction false} KeepMember<T>(s: seq<T>, mask: seq<bool>, i: int)
    requires |s| == |mask|
    requires 0 <= i < |s| && mask[i]
    ensures s[i] in Keep(s, mask)
  {
    if i > 0 {
      KeepMember(s[1..], mask[1..], i - 1);
    }
  }

  /** A mask selecting exactly the first `k` entries selects the prefix. */
  lemma {:induction false} KeepPrefix<T>(s: seq<T>, mask: seq<bool>, k: int)
    requires |s| == |mask| && 0 <= k <= |s|
    requires forall j :: 0 <= j < |mask| ==> mask[j] == (j < k)
    ensures Keep(s, mask) == s[..k]
  {
    if s != [] {
      if k == 0 {
        KeepNone(s, mask);
      } else {
        KeepPrefix(s[1..], mask[1..], k - 1);
        assert s[..k] == [s[0]] + s[1..][..k - 1];
      }
    }
  }

  /** A mask selecting nothing selects the empty sequence. */
  lemma {:induction false} KeepNone<T>(s: seq<T>, mask: seq<bool>)
    requires |s| == |mask|
    requires forall j :: 0 <= j < |mask| ==> !mask[j]
    ensures Keep(s, mask) == []
  {
    if s != [] {
      KeepNone(s[1..], mask[1..]);
    }
  }

  /** A mask skipping exactly the first `k` entries selects the suffix. */
  lemma {:induction false} KeepSuffix<T>(s: seq<T>, mask: seq<bool>, k: int)
    requires |s| == |mask| && 0 <= k <= |s|
    requires forall j :: 0 <= j < |mask| ==> mask[j] == (j >= k)
    ensures Keep(s, mask) == s[k..]
  {
    if s != [] {
      if k == 0 {
        KeepAll(s, mask);
      } else {
        KeepSuffix(s[1..], mask[1..], k - 1);
        assert s[1..][k - 1..] == s[k..];
      }
    }
  }

  /** Selecting twice is selecting once with the conjunction of the masks:
      `s[m1][m2[m1]] == s[m1 & m2]`. */
  lemma {:induction false} KeepKeep<T>(s: seq<T>, m1: seq<bool>, m2: seq<bool>)
    requires |s| == |m1| == |m2|
    ensures Keep(Keep(s, m1), Keep(m2, m1)) == Keep(s, And(m1, m2))
  {
    if s != [] {
      assert And(m1, m2)[1..] == And(m1[1..], m2[1..]);
      KeepKeep(s[1..], m1[1..], m2[1..]);
      var rest := Keep(s[1..], m1[1..]);
      var restMask := Keep(m2[1..], m1[1..]);
      if m1[0] {
        assert Keep(s, m1) == [s[0]] + rest;
        assert Keep(m2, m1) == [m2[0]] + restMask;
        assert ([s[0]] + rest)[1..] == rest;
        assert ([m2[0]] + restMask)[1..] == restMask;
      } else {
        assert Keep(s, m1) == rest;
        assert Keep(m2, m1) == restMask;
      }
    }
  }

  /** A mask computed row by row from a predicate `p` commutes with
      selection: computing it on `rows[m]` gives the original mask's `[m]`. */
  lemma {:induction false} KeepRowwise(rows: Matrix, m: seq<bool>, p: Row -> bool,
                                       whole: seq<bool>, part: seq<bool>)
    requires |rows| == |m| == |whole|
    requires forall j :: 0 <= j < |whole| ==> whole[j] == p(rows[j])
    requires |part| == Count(m)
    requires forall j :: 0 <= j < |part| ==> part[j] == p(Keep(rows, m)[j])
    ensures part == Keep(whole, m)
  {
    if rows != [] {
      var rest := Keep(rows[1..], m[1..]);
      if m[0] {
        KeepHead(rows, m, p, part);
        KeepRowwise(rows[1..], m[1..], p, whole[1..], part[1..]);
        assert part[0] == whole[0];
        assert Keep(whole, m) == [whole[0]] + Keep(whole[1..], m[1..]);
        assert part == [part[0]] + part[1..];
      } else {
        assert Keep(rows, m) == rest;
        KeepRowwise(rows[1..], m[1..], p, whole[1..], part);
        assert Keep(whole, m) == Keep(whole[1..], m[1..]);
      }
    }
  }

  /** When the first entry is selected, a row-wise image of the selection
      starts with the image of that entry, followed by the image of the
      selection from the rest. */
  lemma KeepHead(rows: Matrix, m: seq<bool>, p: Row -> bool, part: seq<bool>)
    requires |rows| == |m| > 0 && m[0]
    requires |part| == Count(m)
    requires forall j :: 0 <= j < |part| ==> part[j] == p(Keep(rows, m)[j])
    ensures part[0] == p(rows[0])
    ensures forall j :: 0 <= j < |part[1..]| ==> part[1..][j] == p(Keep(rows[1..], m[1..])[j])
  {
    var rest := Keep(rows[1..], m[1..]);
    assert Keep(rows, m) == [rows[0]] + rest;
    forall j | 0 <= j < |part[1..]|
      ensures part[1..][j] == p(rest[j])
    {
      assert part[1 + j] == p(Keep(rows, m)[1 + j]);
    }
  }

  // ---------------------------------------------------------------------
  // Sums and means

  lemma SumCons(x: int, s: seq<int>)
    ensures Sum([x] + s) == x + Sum(s)
  {
    assert ([x] + s)[1..] == s;
  }

  /** A mask and its complement split the label sum. */
  lemma {:induction false} SumSplit(s: seq<int>, m: seq<bool>)
    requires |s| == |m|
    ensures Sum(Keep(s, m)) + Sum(Keep(s, Flip(m))) == Sum(s)
  {
    if s != [] {
      assert Flip(m)[1..] == Flip(m[1..]);
      SumSplit(s[1..], m[1..]);
      if m[0] {
        SumCons(s[0], Keep(s[1..], m[1..]));
        assert Keep(s, Flip(m)) == Keep(s[1..], Flip(m[1..]));
      } else {
        SumCons(s[0], Keep(s[1..], Flip(m[1..])));
        assert Keep(s, m) == Keep(s[1..], m[1..]);
      }
    }
  }

  /** The sum of 0/1 labels counts the 1s, so it lies between 0 and the length. */
  lemma {:induction false} SumBinary(s: seq<int>)
    requires Binary(s)
    ensures 0 <= Sum(s) <= |s|
  {
    if s != [] {
      assert s[0] in s;
      assert forall x :: x in s[1..] ==> x in s;
      SumBinary(s[1..]);
    }
  }

  /** Labels all equal to `c` sum to `c` times their number. */
  lemma {:induction false} SumConstant(s: seq<int>, c: int)
    requires forall x :: x in s ==> x == c
    ensures Sum(s) == c * |s|
  {
    if s != [] {
      assert s[0] in s;
      assert forall x :: x in s[1..] ==> x in s;
      SumConstant(s[1..], c);
    }
  }

  /** The mean of 0/1 labels is a proportion, in [0, 1]. */
  lemma MeanBinary(s: seq<int>)
    requires |s| > 0 && Binary(s)
    ensures 0.0 <= Mean(s) <= 1.0
  {
    SumBinary(s);
    Fraction(Sum(s) as real, |s| as real);
  }

  /** A part of a positive whole is a fraction between 0 and 1 of it. */
  lemma Fraction(a: real, n: real)
    requires n > 0.0 && 0.0 <= a <= n
    ensures 0.0 <= a / n <= 1.0
  {
    assert a / n * n == a;
    assert (1.0 - a / n) * n == n - a;
  }

  /** The mean of labels that all equal `c` is `c`: an all-0 subset has
      mean 0 and an all-1 subset mean 1. */
  lemma MeanConstant(s: seq<int>, c: int)
    requires |s| > 0
    requires forall x :: x in s ==> x == c
    ensures Mean(s) == c as real
  {
    SumConstant(s, c);
    assert Sum(s) as real == c as real * |s| as real;
  }

  /** The mean exceeds one half exactly when more than half of the labels'
      total is reached: for 0/1 labels, when the 1s are a strict majority. */
  lemma MeanAboveHalf(s: seq<int>)
    requires |s| > 0
    ensures Mean(s) > 0.5 <==> 2 * Sum(s) > |s|
  {
    var n := |s| as real;
    var total := Sum(s) as real;
    assert Mean(s) * n == total;
    var q := Mean(s);
    if q > 0.5 {
      assert (q - 0.5) * n > 0.0;
      assert total > 0.5 * n;
      assert (2 * Sum(s)) as real > |s| as real;
    } else {
      assert (0.5 - q) * n >= 0.0;
      assert total <= 0.5 * n;
      assert (2 * Sum(s)) as real <= |s| as real;
    }
  }

  /** Mean times count gives the sum back. */
  lemma MeanTimesCount(s: seq<int>)
    requires |s| > 0
    ensures Mean(s) * |s| as real == Sum(s) as real
  {
  }
}
