/** `_split`: the exhaustive search for the best (feature, threshold) pair.
    For each searched column it tries, in ascending order, every distinct
    value above the column's minimum as a threshold `d`, scores the
    partition `labels[x < d]` / `labels[x >= d]` with the criterion, and
    keeps the first pair with the highest score, provided that score is
    above -1 (ties keep the earlier pair). */
module Splitter {
  import opened Data
  import opened Domain

  /** Scores a partition of the labels (left side, right side); higher is
      better. The tree code only compares scores. */
  type Criterion = (seq<int>, seq<int>) -> real

  /** A split: send a sample left when `x[featid] < featval`. */
  datatype Split = Split(featid: nat, featval: real)

  /** `features[:, c]` */
  function Column(rows: Matrix, c: nat): seq<real>
    requires forall row :: row in rows ==> c < |row|
  {
    seq(|rows|, j requires 0 <= j < |rows| => rows[j][c])
  }

  /** The columns searched, in order: every column when there is no
      subsample, otherwise the columns the random source drew
      (`samples`), so that position `i` of the search stands for the
      original column `samples[i]`. */
  function SearchColumns(nfeat: nat, drawn: Option<seq<nat>>): (cols: seq<nat>)
    requires drawn.Some? ==> InRange(drawn.value, nfeat)
    ensures InRange(cols, nfeat)
    ensures drawn.Some? ==> cols == drawn.value
    ensures drawn.None? ==> |cols| == nfeat && forall i :: 0 <= i < nfeat ==> cols[i] == i
  {
    if drawn.None? then seq(nfeat, i requires 0 <= i < nfeat => i as nat) else drawn.value
  }

  /** `domain_i[1:]`: every distinct value but the smallest. */
  function AboveMin(domain: seq<real>): seq<real> {
    if domain == [] then [] else domain[1..]
  }

  /** The candidate splits on column `c` with thresholds `ds`, in order. */
  function Thresholds(c: nat, ds: seq<real>): (r: seq<Split>)
    ensures forall k :: 0 <= k < |r| ==> r[k].featid == c
  {
    if ds == [] then [] else [Split(c, ds[0])] + Thresholds(c, ds[1..])
  }

  /** Every candidate in `cands` splits on a column below `nfeat`. */
  predicate Within(cands: seq<Split>, nfeat: nat) {
    forall k :: 0 <= k < |cands| ==> cands[k].featid < nfeat
  }

  /** Every candidate `_split` evaluates, in its order: columns as listed,
      thresholds ascending within a column. */
  function Candidates(rows: Matrix, nfeat: nat, cols: seq<nat>): (cands: seq<Split>)
    requires Rect(rows, nfeat)
    requires InRange(cols, nfeat)
    ensures Within(cands, nfeat)
  {
    if cols == [] then []
    else
      Thresholds(cols[0], AboveMin(SortedSet(Column(rows, cols[0]))))
      + Candidates(rows, nfeat, cols[1..])
  }

  /** The criterion's value for a candidate:
      `criterion(labels[cur_split], labels[~cur_split])`. */
  function Score(rows: Matrix, labels: seq<int>, nfeat: nat, crit: Criterion, s: Split): real
    requires |labels| == |rows| && Rect(rows, nfeat) && s.featid < nfeat
  {
    crit(Below(labels, rows, s.featid, s.featval), AtOrAbove(labels, rows, s.featid, s.featval))
  }

  /** The scores of a list of candidates. */
  function Scores(rows: Matrix, labels: seq<int>, nfeat: nat, crit: Criterion, cands: seq<Split>): (sc: seq<real>)
    requires |labels| == |rows| && Rect(rows, nfeat)
    requires Within(cands, nfeat)
    ensures |sc| == |cands|
  {
    seq(|cands|, k requires 0 <= k < |cands| => Score(rows, labels, nfeat, crit, cands[k]))
  }

  /** The search loop from a state (`best`, `bestVal`) on, over candidates
      and their scores: a candidate replaces the best so far only when its
      score is strictly greater. */
  function Scan(cands: seq<Split>, sc: seq<real>, best: Option<Split>, bestVal: real): Option<Split>
    requires |sc| == |cands|
  {
    if cands == [] then best
    else if sc[0] > bestVal then Scan(cands[1..], sc[1..], Some(cands[0]), sc[0])
    else Scan(cands[1..], sc[1..], best, bestVal)
  }

  /** The search over `cands`, scoring them as it goes, from the state
      (`best`, `bestVal`). */
  function Search(rows: Matrix, labels: seq<int>, nfeat: nat, crit: Criterion,
                  cands: seq<Split>, best: Option<Split>, bestVal: real): Option<Split>
    requires |labels| == |rows| && Rect(rows, nfeat)
    requires Within(cands, nfeat)
  {
    Scan(cands, Scores(rows, labels, nfeat, crit, cands), best, bestVal)
  }

  /** Candidate `s` splits `rows` into two non-empty sides: its threshold is
      a value of its column, and some row lies strictly below it. */
  ghost predicate Separates(rows: Matrix, s: Split)
    requires forall row :: row in rows ==> s.featid < |row|
  {
    && (exists j :: 0 <= j < |rows| && rows[j][s.featid] == s.featval)
    && (exists j :: 0 <= j < |rows| && rows[j][s.featid] < s.featval)
  }

  /** What `_split` returns (`None` or `(ti, d)`). */
  function BestSplit(rows: Matrix, labels: seq<int>, nfeat: nat, crit: Criterion,
                     drawn: Option<seq<nat>>): Option<Split>
    requires |labels| == |rows| && Rect(rows, nfeat)
    requires drawn.Some? ==> InRange(drawn.value, nfeat)
  {
    Search(rows, labels, nfeat, crit, Candidates(rows, nfeat, SearchColumns(nfeat, drawn)), None, -1.0)
  }

  /** The split `_split` returns is on a searched column and leaves both
      sides non-empty: its threshold occurs in the column and some sample
      lies strictly below it. */
  lemma BestSplitSeparates(rows: Matrix, labels: seq<int>, nfeat: nat, crit: Criterion,
                           drawn: Option<seq<nat>>)
    requires |labels| == |rows| && Rect(rows, nfeat)
    requires drawn.Some? ==> InRange(drawn.value, nfeat)
    ensures var r := BestSplit(rows, labels, nfeat, crit, drawn);
            r.Some? ==>
              && r.value.featid in SearchColumns(nfeat, drawn) && r.value.featid < nfeat
              && Separates(rows, r.value)
              && 0 < |Below(labels, rows, r.value.featid, r.value.featval)| < |labels|
              && 0 < |AtOrAbove(labels, rows, r.value.featid, r.value.featval)| < |labels|
  {
    var cols := SearchColumns(nfeat, drawn);
    CandidatesExact(rows, nfeat, cols);
    var cands := Candidates(rows, nfeat, cols);
    ScanPicks(cands, Scores(rows, labels, nfeat, crit, cands), None, -1.0);
    var r := BestSplit(rows, labels, nfeat, crit, drawn);
    SeparatesCount(rows, r);
    if r.Some? {
      CountFlip(LessMask(rows, r.value.featid, r.value.featval));
    }
  }

  /** The imperative search of `_split`: nested loops over the searched
      columns and their thresholds, updating `best` and `bestVal`. */
  method FindSplit(rows: Matrix, labels: seq<int>, nfeat: nat, crit: Criterion,
                   drawn: Option<seq<nat>>) returns (best: Option<Split>)
    requires |labels| == |rows| && Rect(rows, nfeat)
    requires drawn.Some? ==> InRange(drawn.value, nfeat)
    ensures best == BestSplit(rows, labels, nfeat, crit, drawn)
  {
    var cols := SearchColumns(nfeat, drawn);
    best := ScanColumns(rows, labels, nfeat, crit, cols);
  }

  /** The outer loop of `_split` over the searched columns `cols`. */
  method ScanColumns(rows: Matrix, labels: seq<int>, nfeat: nat, crit: Criterion, cols: seq<nat>)
    returns (best: Option<Split>)
    requires |labels| == |rows| && Rect(rows, nfeat) && InRange(cols, nfeat)
    ensures best == Search(rows, labels, nfeat, crit, Candidates(rows, nfeat, cols), None, -1.0)
  {
    best := None;
    var bestVal := -1.0;
    PendingBounds(rows, nfeat, cols);
    for i := 0 to |cols|
      invariant Search(rows, labels, nfeat, crit, Candidates(rows, nfeat, cols), None, -1.0)
             == Search(rows, labels, nfeat, crit, Pending(rows, nfeat, cols, i), best, bestVal)
    {
      var c := cols[i];
      var domain := SortedSet(Column(rows, c));
      PendingStep(rows, nfeat, cols, i);
      best, bestVal := ScanColumn(rows, labels, nfeat, crit, c, AboveMin(domain), best, bestVal,
                                  Pending(rows, nfeat, cols, i + 1));
    }
  }

  /** The candidates still to be tried once the columns before `cols[i]`
      are done. */
  ghost function Pending(rows: Matrix, nfeat: nat, cols: seq<nat>, i: int): (r: seq<Split>)
    requires Rect(rows, nfeat) && InRange(cols, nfeat) && 0 <= i <= |cols|
    ensures Within(r, nfeat)
  {
    Candidates(rows, nfeat, cols[i..])
  }

  /** Before the first column everything is pending, after the last nothing. */
  lemma PendingBounds(rows: Matrix, nfeat: nat, cols: seq<nat>)
    requires Rect(rows, nfeat) && InRange(cols, nfeat)
    ensures Pending(rows, nfeat, cols, 0) == Candidates(rows, nfeat, cols)
    ensures Pending(rows, nfeat, cols, |cols|) == []
  {
    assert cols[0..] == cols;
    assert cols[|cols|..] == [];
  }

  /** What is pending before column `cols[i]` is its thresholds followed by
      what is pending after it. */
  lemma PendingStep(rows: Matrix, nfeat: nat, cols: seq<nat>, i: int)
    requires Rect(rows, nfeat) && InRange(cols, nfeat) && 0 <= i < |cols|
    ensures Pending(rows, nfeat, cols, i)
         == Thresholds(cols[i], AboveMin(SortedSet(Column(rows, cols[i]))))
            + Pending(rows, nfeat, cols, i + 1)
  {
    assert cols[i..][0] == cols[i];
    assert cols[i..][1..] == cols[i + 1..];
  }

  /** The inner loop of `_split` over the thresholds `ds` of column `c`:
      it leaves the search in the state the specification reaches after
      those candidates, whatever candidates `rest` follow. */
  method ScanColumn(rows: Matrix, labels: seq<int>, nfeat: nat, crit: Criterion, c: nat,
                    ds: seq<real>, best0: Option<Split>, bestVal0: real, ghost rest: seq<Split>)
    returns (best: Option<Split>, bestVal: real)
    requires |labels| == |rows| && Rect(rows, nfeat) && c < nfeat
    requires Within(rest, nfeat)
    ensures Search(rows, labels, nfeat, crit, Thresholds(c, ds) + rest, best0, bestVal0)
            == Search(rows, labels, nfeat, crit, rest, best, bestVal)
  {
    best, bestVal := best0, bestVal0;
    assert ds[0..] == ds;
    for k := 0 to |ds|
      invariant Search(rows, labels, nfeat, crit, Thresholds(c, ds) + rest, best0, bestVal0)
                == Search(rows, labels, nfeat, crit, Thresholds(c, ds[k..]) + rest, best, bestVal)
    {
      var d := ds[k];
      var curSplit := LessMask(rows, c, d);
      var value := crit(Keep(labels, curSplit), Keep(labels, Flip(curSplit)));
      ScanStep(rows, labels, nfeat, crit, c, ds, k, rest, best, bestVal);
      if value > bestVal {
        bestVal := value;
        best := Some(Split(c, d));
      }
    }
    assert ds[|ds|..] == [];
    assert Thresholds(c, ds[|ds|..]) + rest == rest;
  }

  /** One step of the inner loop: the candidate `(c, ds[k])` is scored and
      replaces the best so far exactly when its score is strictly greater. */
  lemma ScanStep(rows: Matrix, labels: seq<int>, nfeat: nat, crit: Criterion, c: nat,
                 ds: seq<real>, k: int, rest: seq<Split>, best: Option<Split>, bestVal: real)
    requires |labels| == |rows| && Rect(rows, nfeat) && c < nfeat && 0 <= k < |ds|
    requires Within(rest, nfeat)
    ensures var rem := Thresholds(c, ds[k + 1..]) + rest;
            var v := Score(rows, labels, nfeat, crit, Split(c, ds[k]));
            Search(rows, labels, nfeat, crit, Thresholds(c, ds[k..]) + rest, best, bestVal)
            == if v > bestVal then Search(rows, labels, nfeat, crit, rem, Some(Split(c, ds[k])), v)
               else Search(rows, labels, nfeat, crit, rem, best, bestVal)
  {
    assert ds[k..][1..] == ds[k + 1..];
    assert Thresholds(c, ds[k..]) + rest == [Split(c, ds[k])] + (Thresholds(c, ds[k + 1..]) + rest);
    SearchCons(rows, labels, nfeat, crit, Split(c, ds[k]), Thresholds(c, ds[k + 1..]) + rest, best, bestVal);
  }

  /** The search over `[s] + rest` scores `s` first and takes it exactly
      when its score beats the best so far. */
  lemma SearchCons(rows: Matrix, labels: seq<int>, nfeat: nat, crit: Criterion, s: Split,
                   rest: seq<Split>, best: Option<Split>, bestVal: real)
    requires |labels| == |rows| && Rect(rows, nfeat) && s.featid < nfeat && Within(rest, nfeat)
    ensures var v := Score(rows, labels, nfeat, crit, s);
            Search(rows, labels, nfeat, crit, [s] + rest, best, bestVal)
            == if v > bestVal then Search(rows, labels, nfeat, crit, rest, Some(s), v)
               else Search(rows, labels, nfeat, crit, rest, best, bestVal)
  {
    var sc := Scores(rows, labels, nfeat, crit, [s] + rest);
    assert ([s] + rest)[1..] == rest;
    assert sc[1..] == Scores(rows, labels, nfeat, crit, rest);
  }

  // ---------------------------------------------------------------------
  // What the search finds

  /** `k` is the candidate the search settles on when it starts from
      `floor`: its score beats `floor` and every earlier score, and no
      later score beats it. */
  ghost predicate Leads(scores: seq<real>, k: int, floor: real) {
    && 0 <= k < |scores|
    && scores[k] > floor
    && (forall j :: 0 <= j < k ==> scores[j] < scores[k])
    && (forall j :: k < j < |scores| ==> scores[j] <= scores[k])
  }

  /** From state (`best`, `bestVal`), the search keeps `best` when no score
      beats `bestVal` (result `k == -1`), and otherwise ends on the leading
      candidate `k`. */
  lemma {:induction false} ScanSpec(cands: seq<Split>, sc: seq<real>, best: Option<Split>, bestVal: real)
    returns (k: int)
    requires |sc| == |cands|
    ensures k == -1 || Leads(sc, k, bestVal)
    ensures k == -1 <==> forall j :: 0 <= j < |sc| ==> sc[j] <= bestVal
    ensures Scan(cands, sc, best, bestVal) == if k == -1 then best else Some(cands[k])
  {
    if cands == [] {
      k := -1;
    } else if sc[0] > bestVal {
      var k' := ScanSpec(cands[1..], sc[1..], Some(cands[0]), sc[0]);
      if k' == -1 {
        k := 0;
      } else {
        k := k' + 1;
        assert cands[1..][k'] == cands[k];
      }
    } else {
      var k' := ScanSpec(cands[1..], sc[1..], best, bestVal);
      if k' == -1 {
        k := -1;
      } else {
        k := k' + 1;
        assert cands[1..][k'] == cands[k];
      }
    }
  }

  /** The search ends on its starting state or on one of the candidates. */
  lemma ScanPicks(cands: seq<Split>, sc: seq<real>, best: Option<Split>, bestVal: real)
    requires |sc| == |cands|
    ensures var r := Scan(cands, sc, best, bestVal);
            r == best || (r.Some? && r.value in cands)
  {
    var k := ScanSpec(cands, sc, best, bestVal);
  }

  /** `_split` returns `None` exactly when no candidate scores above -1;
      otherwise it returns the first candidate, in search order, whose score
      is maximal (ties keep the earlier one). */
  lemma BestSplitIsFirstMaximal(rows: Matrix, labels: seq<int>, nfeat: nat, crit: Criterion,
                                drawn: Option<seq<nat>>)
    requires |labels| == |rows| && Rect(rows, nfeat)
    requires drawn.Some? ==> InRange(drawn.value, nfeat)
    ensures var cands := Candidates(rows, nfeat, SearchColumns(nfeat, drawn));
            var sc := Scores(rows, labels, nfeat, crit, cands);
            var r := BestSplit(rows, labels, nfeat, crit, drawn);
            && (r.None? <==> forall k :: 0 <= k < |sc| ==> sc[k] <= -1.0)
            && (r.Some? ==> exists k :: Leads(sc, k, -1.0) && r.value == cands[k])
  {
    var cands := Candidates(rows, nfeat, SearchColumns(nfeat, drawn));
    var k := ScanSpec(cands, Scores(rows, labels, nfeat, crit, cands), None, -1.0);
  }

  /** The leading candidate is unique: the tie-break picks one pair. */
  lemma LeaderUnique(scores: seq<real>, k1: int, k2: int, floor: real)
    requires Leads(scores, k1, floor) && Leads(scores, k2, floor)
    ensures k1 == k2
  {
  }

  /** A split candidate on column `c` with threshold `d` is tried exactly
      when `c` is searched, `d` occurs in column `c`, and `d` is above the
      column's minimum. */
  lemma {:induction false} CandidatesExact(rows: Matrix, nfeat: nat, cols: seq<nat>)
    requires Rect(rows, nfeat)
    requires InRange(cols, nfeat)
    ensures forall s :: s in Candidates(rows, nfeat, cols) ==>
              s.featid in cols && s.featid < nfeat && Separates(rows, s)
    ensures forall c, d :: c in cols && Separates(rows, Split(c, d)) ==>
              Split(c, d) in Candidates(rows, nfeat, cols)
  {
    if cols != [] {
      var c := cols[0];
      CandidatesExact(rows, nfeat, cols[1..]);
      ThresholdsMembers(c, AboveMin(SortedSet(Column(rows, c))));
      ColumnThresholds(rows, c);
    }
  }

  /** The thresholds tried on column `c` are exactly the values that
      separate the rows on that column. */
  lemma ColumnThresholds(rows: Matrix, c: nat)
    requires forall row :: row in rows ==> c < |row|
    ensures forall d :: d in AboveMin(SortedSet(Column(rows, c))) <==> Separates(rows, Split(c, d))
  {
    var domain := SortedSet(Column(rows, c));
    forall d | d in AboveMin(domain)
      ensures Separates(rows, Split(c, d))
    {
      var i :| 1 <= i < |domain| && domain[i] == d;
      assert domain[0] in Column(rows, c);
      assert d in Column(rows, c);
    }
    forall d | Separates(rows, Split(c, d))
      ensures d in AboveMin(domain)
    {
      var j :| 0 <= j < |rows| && rows[j][c] == d;
      var j' :| 0 <= j' < |rows| && rows[j'][c] < d;
      assert Column(rows, c)[j] == d;
      assert Column(rows, c)[j'] == rows[j'][c];
      assert d in domain && rows[j'][c] in domain;
      var i :| 0 <= i < |domain| && domain[i] == d;
      FirstIsLeast(domain, rows[j'][c]);
      assert domain[1..][i - 1] == d;
    }
  }

  lemma {:induction false} ThresholdsMembers(c: nat, ds: seq<real>)
    ensures forall s :: s in Thresholds(c, ds) <==> s.featid == c && s.featval in ds
  {
    if ds != [] {
      ThresholdsMembers(c, ds[1..]);
    }
  }

  /** A split that separates the rows leaves both sides non-empty. */
  lemma SeparatesCount(rows: Matrix, r: Option<Split>)
    requires r.Some? ==> forall row :: row in rows ==> r.value.featid < |row|
    requires r.Some? ==> Separates(rows, r.value)
    ensures r.Some? ==> 0 < Count(LessMask(rows, r.value.featid, r.value.featval)) < |rows|
  {
    if r.Some? {
      var s := r.value;
      var m := LessMask(rows, s.featid, s.featval);
      var j :| 0 <= j < |rows| && rows[j][s.featid] == s.featval;
      var j' :| 0 <= j' < |rows| && rows[j'][s.featid] < s.featval;
      CountWitness(m, j);
      CountWitness(m, j');
    }
  }

  /** A search whose columns each hold a single value has no candidate, so
      `_split` returns `None`. */
  lemma {:induction false} ConstantColumnsNoSplit(rows: Matrix, labels: seq<int>, nfeat: nat,
                                                  crit: Criterion, drawn: Option<seq<nat>>)
    requires |labels| == |rows| && Rect(rows, nfeat)
    requires drawn.Some? ==> InRange(drawn.value, nfeat)
    requires var cols := SearchColumns(nfeat, drawn);
             forall i, j :: 0 <= i < |cols| && 0 <= j < |rows| ==> rows[j][cols[i]] == rows[0][cols[i]]
    ensures BestSplit(rows, labels, nfeat, crit, drawn) == None
  {
    ConstantCandidates(rows, nfeat, SearchColumns(nfeat, drawn));
  }

  /** Columns holding a single value yield no candidate threshold. */
  lemma {:induction false} ConstantCandidates(rows: Matrix, nfeat: nat, cols: seq<nat>)
    requires Rect(rows, nfeat)
    requires InRange(cols, nfeat)
    requires forall i, j :: 0 <= i < |cols| && 0 <= j < |rows| ==> rows[j][cols[i]] == rows[0][cols[i]]
    ensures Candidates(rows, nfeat, cols) == []
  {
    if cols != [] {
      var c := cols[0];
      forall i, j | 0 <= i < |cols[1..]| && 0 <= j < |rows|
        ensures rows[j][cols[1..][i]] == rows[0][cols[1..][i]]
      {
        assert cols[1..][i] == cols[i + 1];
      }
      ConstantCandidates(rows, nfeat, cols[1..]);
      assert forall j :: 0 <= j < |rows| ==> rows[j][c] == rows[0][c];
      ConstantColumn(rows, c);
    }
  }

  /** A column holding one value has no threshold above its minimum. */
  lemma ConstantColumn(rows: Matrix, c: nat)
    requires forall row :: row in rows ==> c < |row|
    requires forall j :: 0 <= j < |rows| ==> rows[j][c] == rows[0][c]
    ensures AboveMin(SortedSet(Column(rows, c))) == []
  {
    var col := Column(rows, c);
    if rows == [] {
      SingleValue(col, 0.0);
    } else {
      forall y | y in col
        ensures y == rows[0][c]
      {
        var j :| 0 <= j < |col| && col[j] == y;
      }
      SingleValue(col, rows[0][c]);
    }
  }
}
