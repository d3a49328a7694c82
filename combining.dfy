/** Consolidation of outlier bins into CNV calls (`combiningCNV`): keep the
    bins labelled as outliers, type each one against the baseline depth, and
    merge every run of adjacent same-type bins into one call. */
module Combining {
  import opened Selection

  /** Codes held in the `type` array while merging. */
  const ABSORBED: int := 0
  const DELETION: int := 1
  const DUPLICATION: int := 2

  /** The name a type code is reported under (the inner `_func`). */
  function TypeName(code: int): string
  {
    if code == DUPLICATION then "duplication" else "deletion"
  }

  /** The type code of an outlier bin: duplication only when its read depth
      strictly exceeds the baseline. */
  function Classify(rd: real, mode: real): int
  {
    if rd > mode then DUPLICATION else DELETION
  }

  lemma ClassifyNames(rd: real, mode: real)
    ensures TypeName(Classify(rd, mode)) == "duplication" <==> rd > mode
    ensures TypeName(Classify(rd, mode)) == "deletion" <==> rd <= mode
    ensures Classify(rd, mode) != ABSORBED
  {
  }

  /** One row of the parallel arrays: a kept bin, or an emitted call. */
  datatype Cnv = Cnv(chr: string, start: int, end: int, rd: real, code: int)

  /** The merge test: `a` ends right before `b` starts and both have the same
      type. The chromosome takes no part. */
  predicate Joins(a: Cnv, b: Cnv)
  {
    a.end + 1 == b.start && a.code == b.code
  }

  /** Length of the maximal run of joined neighbours at the front of `s`. */
  function RunLength(s: seq<Cnv>): (n: nat)
    ensures |s| == 0 ==> n == 0
    ensures |s| > 0 ==> 1 <= n <= |s|
    decreases |s|
  {
    if |s| <= 1 then |s|
    else if Joins(s[0], s[1]) then 1 + RunLength(s[1..])
    else 1
  }

  /** The front run is maximal: its neighbours all join, and it stops at the
      first pair that does not. */
  lemma {:induction false} RunIsMaximal(s: seq<Cnv>, k: nat)
    requires k < RunLength(s)
    ensures k + 1 < RunLength(s) ==> Joins(s[k], s[k + 1])
    ensures k + 1 == RunLength(s) < |s| ==> !Joins(s[k], s[k + 1])
    decreases |s|
  {
    if k > 0 {
      RunIsMaximal(s[1..], k - 1);
    }
  }

  /** Reference definition of the merged calls: one call per maximal run,
      with the start of the run's first bin and everything else (end, read
      depth, type, chromosome) of the run's last bin. */
  function Merge(s: seq<Cnv>): (r: seq<Cnv>)
    ensures |r| <= |s|
    ensures |r| == 0 <==> |s| == 0
    decreases |s|
  {
    if |s| == 0 then []
    else
      var n := RunLength(s);
      [s[n - 1].(start := s[0].start)] + Merge(s[n..])
  }

  /** The mask `labels == 1`. */
  function LabelMask(labels: seq<int>): (m: seq<bool>)
  {
    seq(|labels|, i requires 0 <= i < |labels| => labels[i] == 1)
  }

  /** The kept bins, typed against the baseline, in their original order. */
  function Outliers(chr: seq<string>, start: seq<int>, end: seq<int>, rd: seq<real>,
                    labels: seq<int>, mode: real): (s: seq<Cnv>)
    requires |start| == |chr| && |end| == |chr| && |rd| == |chr| && |labels| == |chr|
  {
    var kept := Kept(LabelMask(labels));
    seq(|kept|, k requires 0 <= k < |kept| =>
      var i := kept[k];
      Cnv(chr[i], start[i], end[i], rd[i], Classify(rd[i], mode)))
  }

  // ---------------------------------------------------------------------
  // Facts about runs and Merge

  /** Slicing facts about a sequence with one element in front. */
  lemma Cons<T>(x: T, u: seq<T>, k: nat)
    requires k <= |u|
    ensures ([x] + u)[1..] == u
    ensures ([x] + u)[k + 1..] == u[k..]
    ensures k < |u| ==> ([x] + u)[k + 1] == u[k]
  {
  }

  lemma Assoc<T>(a: seq<T>, b: seq<T>, c: seq<T>)
    ensures a + (b + c) == (a + b) + c
  {
  }

  /** Updating positions `i` and `i + 1` leaves what is around them alone. */
  lemma UpdatePair<T>(s: seq<T>, i: nat, a: T, b: T)
    requires i + 1 < |s|
    ensures s[i := a][i + 1 := b][..i] == s[..i]
    ensures s[i := a][i + 1 := b][i + 2..] == s[i + 2..]
  {
  }

  /** Splitting a sequence around position `i`. */
  lemma Split<T>(s: seq<T>, i: nat)
    requires i < |s|
    ensures s[i..] == [s[i]] + s[i + 1..]
    ensures s[..i + 1] == s[..i] + [s[i]]
  {
  }

  /** The start of the first bin never decides a run. */
  lemma RunLengthIgnoresFirstStart(x: Cnv, t: seq<Cnv>, v: int)
    ensures RunLength([x] + t) == RunLength([x.(start := v)] + t)
  {
    Cons(x, t, 0);
    Cons(x.(start := v), t, 0);
  }

  /** One step of the in-place pass: absorbing a bin into its joined right
      neighbour (the neighbour takes over its start) leaves the merged calls
      unchanged. */
  lemma AbsorbJoined(x: Cnv, y: Cnv, t: seq<Cnv>)
    requires Joins(x, y)
    ensures Merge([x] + ([y] + t)) == Merge([y.(start := x.start)] + t)
  {
    var u, v := [y] + t, [y.(start := x.start)] + t;
    RunLengthIgnoresFirstStart(y, t, x.start);
    var m := RunLength(u);
    Cons(x, u, m);
    Cons(x, u, m - 1);
    assert RunLength([x] + u) == m + 1;
    Cons(y, t, m - 1);
    Cons(y.(start := x.start), t, m - 1);
    assert v[m..] == u[m..];
    assert ([x] + u)[m] .(start := x.start) == v[m - 1].(start := v[0].start);
  }

  /** A bin that does not join its right neighbour is a call of its own. */
  lemma AbsorbSeparate(x: Cnv, y: Cnv, t: seq<Cnv>)
    requires !Joins(x, y)
    ensures Merge([x] + ([y] + t)) == [x] + Merge([y] + t)
  {
    Cons(x, [y] + t, 0);
    assert RunLength([x] + ([y] + t)) == 1;
  }

  /** All bins of a run carry the type of its first bin. */
  lemma {:induction false} RunKeepsType(s: seq<Cnv>, k: nat)
    requires k < RunLength(s)
    ensures s[k].code == s[0].code
  {
    if k > 0 {
      RunKeepsType(s, k - 1);
      RunIsMaximal(s, k - 1);
    }
  }

  /** Number of neighbour pairs that satisfy the merge test. */
  function JoinCount(s: seq<Cnv>): nat
    decreases |s|
  {
    if |s| <= 1 then 0
    else (if Joins(s[0], s[1]) then 1 else 0) + JoinCount(s[1..])
  }

  lemma {:induction false} JoinCountOfRun(s: seq<Cnv>)
    requires |s| > 0
    ensures JoinCount(s) == RunLength(s) - 1 + JoinCount(s[RunLength(s)..])
    decreases |s|
  {
    if |s| >= 2 && Joins(s[0], s[1]) {
      JoinCountOfRun(s[1..]);
      assert s[1..][RunLength(s[1..])..] == s[RunLength(s)..];
    }
  }

  /** The number of calls is the number of kept bins minus the number of
      neighbour pairs that merged. */
  lemma {:induction false} MergeCount(s: seq<Cnv>)
    ensures |Merge(s)| == |s| - JoinCount(s)
    decreases |s|
  {
    if |s| > 0 {
      JoinCountOfRun(s);
      MergeCount(s[RunLength(s)..]);
    }
  }

  /** The first call starts where the first bin starts and has its type. */
  lemma MergeHead(s: seq<Cnv>)
    requires |s| > 0
    ensures Merge(s)[0].start == s[0].start && Merge(s)[0].code == s[0].code
  {
    RunKeepsType(s, RunLength(s) - 1);
  }

  /** No two consecutive rows satisfy the merge test. */
  predicate NoneJoin(r: seq<Cnv>)
  {
    forall k, l :: 0 <= k && l == k + 1 < |r| ==> !Joins(r[k], r[l])
  }

  /** No two consecutive calls satisfy the merge test: every call is a
      maximal run. */
  lemma {:induction false} MergeMaximal(s: seq<Cnv>)
    ensures NoneJoin(Merge(s))
    decreases |s|
  {
    if |s| > 0 {
      var n := RunLength(s);
      var rest := s[n..];
      var x := s[n - 1].(start := s[0].start);
      var r := Merge(rest);
      assert Merge(s) == [x] + r;
      MergeMaximal(rest);
      if |r| > 0 {
        MergeHead(rest);
        RunKeepsType(s, n - 1);
        RunIsMaximal(s, n - 1);
        assert !Joins(x, r[0]);
      }
      forall k, l | 0 <= k && l == k + 1 < |[x] + r| ensures !Joins(([x] + r)[k], ([x] + r)[l]) {
        if k > 0 {
          assert ([x] + r)[k] == r[k - 1] && ([x] + r)[l] == r[l - 1];
        }
      }
    }
  }

  /** A run in which every neighbour pair joins becomes one call spanning
      all of it, carrying the LAST bin's read depth. */
  lemma {:induction false} MergeSingleRun(s: seq<Cnv>)
    requires |s| > 0
    requires forall k :: 0 <= k < |s| - 1 ==> Joins(s[k], s[k + 1])
    ensures Merge(s) == [s[|s| - 1].(start := s[0].start)]
  {
    RunLengthAll(s);
    assert s[|s|..] == [];
  }

  lemma {:induction false} RunLengthAll(s: seq<Cnv>)
    requires forall k :: 0 <= k < |s| - 1 ==> Joins(s[k], s[k + 1])
    ensures RunLength(s) == |s|
    decreases |s|
  {
    if |s| >= 2 {
      RunLengthAll(s[1..]);
    }
  }

  /** Bins ordered along one chromosome: each well formed, each ending
      before the next one starts. */
  predicate Ordered(s: seq<Cnv>)
  {
    (forall k :: 0 <= k < |s| ==> s[k].start <= s[k].end) &&
    (forall k, l :: 0 <= k < l < |s| ==> s[k].end < s[l].start)
  }

  lemma OrderedDrop(s: seq<Cnv>, n: nat)
    requires Ordered(s) && n <= |s|
    ensures Ordered(s[n..])
  {
    forall k, l | 0 <= k < l < |s| - n ensures s[n..][k].end < s[n..][l].start {
      assert s[n..][k] == s[n + k] && s[n..][l] == s[n + l];
    }
  }

  lemma OrderedCons(x: Cnv, r: seq<Cnv>)
    requires x.start <= x.end && Ordered(r)
    requires |r| > 0 ==> x.end < r[0].start
    ensures Ordered([x] + r)
  {
    var t := [x] + r;
    forall k, l | 0 <= k < l < |t| ensures t[k].end < t[l].start {
      if k == 0 && l > 1 {
        assert r[0].end < r[l - 1].start;
      }
    }
  }

  /** Merging ordered bins yields ordered, pairwise disjoint calls. */
  lemma {:induction false} MergeKeepsOrder(s: seq<Cnv>)
    requires Ordered(s)
    ensures Ordered(Merge(s))
    decreases |s|
  {
    if |s| > 0 {
      var n := RunLength(s);
      var rest := s[n..];
      OrderedDrop(s, n);
      MergeKeepsOrder(rest);
      var x := s[n - 1].(start := s[0].start);
      assert x.start <= x.end by {
        if n > 1 { assert s[0].end < s[n - 1].start; }
      }
      if |rest| > 0 {
        MergeHead(rest);
        assert s[n - 1].end < s[n].start;
      }
      OrderedCons(x, Merge(rest));
    }
  }

  /** Bins ordered along the genome stay ordered once the outliers are
      picked out of them, and so do the calls merged from those. The
      `labels` fill the code column, which `Ordered` does not look at. */
  lemma OutliersKeepOrder(chr: seq<string>, start: seq<int>, end: seq<int>, rd: seq<real>,
                          labels: seq<int>, mode: real)
    requires |start| == |chr| && |end| == |chr| && |rd| == |chr| && |labels| == |chr|
    requires Ordered(Table(chr, start, end, rd, labels))
    ensures Ordered(Outliers(chr, start, end, rd, labels, mode))
    ensures Ordered(Merge(Outliers(chr, start, end, rd, labels, mode)))
  {
    var bins, kept := Table(chr, start, end, rd, labels), Kept(LabelMask(labels));
    var s := Outliers(chr, start, end, rd, labels, mode);
    forall k | 0 <= k < |s| ensures s[k].start <= s[k].end {
      assert bins[kept[k]].start <= bins[kept[k]].end;
    }
    forall k, l | 0 <= k < l < |s| ensures s[k].end < s[l].start {
      assert bins[kept[k]].end < bins[kept[l]].start;
    }
    MergeKeepsOrder(s);
  }

  // ---------------------------------------------------------------------
  // The in-place algorithm

  /** Rows of the parallel columns. */
  function Table(chr: seq<string>, start: seq<int>, end: seq<int>, rd: seq<real>, code: seq<int>): (rows: seq<Cnv>)
    requires |start| == |chr| && |end| == |chr| && |rd| == |chr| && |code| == |chr|
    ensures |rows| == |chr|
  {
    seq(|chr|, j requires 0 <= j < |chr| => Cnv(chr[j], start[j], end[j], rd[j], code[j]))
  }

  /** The mask `type != 0` over rows. */
  function Survives(rows: seq<Cnv>): (m: seq<bool>)
    ensures |m| == |rows|
  {
    seq(|rows|, j requires 0 <= j < |rows| => rows[j].code != ABSORBED)
  }

  /** The rows that were not absorbed, in order. */
  function Survivors(rows: seq<Cnv>): seq<Cnv>
    decreases |rows|
  {
    if |rows| == 0 then []
    else
      var last := rows[|rows| - 1];
      Survivors(rows[..|rows| - 1]) + (if last.code != ABSORBED then [last] else [])
  }

  lemma SurvivorsSnoc(rows: seq<Cnv>, x: Cnv)
    ensures x.code != ABSORBED ==> Survivors(rows + [x]) == Survivors(rows) + [x]
    ensures x.code == ABSORBED ==> Survivors(rows + [x]) == Survivors(rows)
  {
    assert (rows + [x])[..|rows|] == rows;
    assert Survivors(rows) + [] == Survivors(rows);
  }

  /** The survivors are what the mask `type != 0` selects. */
  lemma {:induction false} SurvivorsSelected(rows: seq<Cnv>)
    ensures Survivors(rows) == Select(rows, Survives(rows))
    decreases |rows|
  {
    if |rows| > 0 {
      var init := rows[..|rows| - 1];
      SurvivorsSelected(init);
      assert Survives(rows)[..|rows| - 1] == Survives(init);
    }
  }

  /** What the pass has established after looking at `i` neighbour pairs:
      the calls already fixed, followed by the merge of what is left (whose
      first row carries the start of the run it is in), are the merge of
      the original bins. */
  ghost predicate PassInvariant(bins: seq<Cnv>, rows: seq<Cnv>, i: nat)
  {
    && i <= |rows|
    && Merge(bins) == Survivors(rows[..i]) + Merge(rows[i..])
  }

  /** Absorbing row `i` into row `i + 1` keeps the pass invariant. */
  lemma PassAbsorb(bins: seq<Cnv>, rows: seq<Cnv>, i: nat)
    requires i + 1 < |rows| && PassInvariant(bins, rows, i) && Joins(rows[i], rows[i + 1])
    ensures PassInvariant(bins, rows[i := rows[i].(code := ABSORBED)][i + 1 := rows[i + 1].(start := rows[i].start)], i + 1)
  {
    var x, y, t := rows[i], rows[i + 1], rows[i + 2..];
    var next := rows[i := x.(code := ABSORBED)][i + 1 := y.(start := x.start)];
    Split(rows, i);
    Split(rows, i + 1);
    AbsorbJoined(x, y, t);
    UpdatePair(rows, i, x.(code := ABSORBED), y.(start := x.start));
    Split(next, i);
    Split(next, i + 1);
    SurvivorsSnoc(rows[..i], next[i]);
  }

  /** Keeping row `i` as a call of its own keeps the pass invariant. */
  lemma PassKeep(bins: seq<Cnv>, rows: seq<Cnv>, i: nat)
    requires i + 1 < |rows| && PassInvariant(bins, rows, i) && !Joins(rows[i], rows[i + 1])
    requires rows[i].code != ABSORBED
    ensures PassInvariant(bins, rows, i + 1)
  {
    var x, y, t := rows[i], rows[i + 1], rows[i + 2..];
    Split(rows, i);
    Split(rows, i + 1);
    AbsorbSeparate(x, y, t);
    SurvivorsSnoc(rows[..i], x);
    Assoc(Survivors(rows[..i]), [x], Merge([y] + t));
  }

  /** At the last row the pass is complete. */
  lemma PassDone(bins: seq<Cnv>, rows: seq<Cnv>)
    requires |rows| > 0 && PassInvariant(bins, rows, |rows| - 1)
    requires rows[|rows| - 1].code != ABSORBED
    ensures Merge(bins) == Survivors(rows)
  {
    var i := |rows| - 1;
    assert rows[i..] == [rows[i]];
    assert RunLength(rows[i..]) == 1;
    assert Merge(rows[i..]) == [rows[i]];
    assert rows == rows[..i] + [rows[i]];
    SurvivorsSnoc(rows[..i], rows[i]);
  }

  /** The absorbing branch of the pass, on the columns. */
  lemma ColumnsAbsorb(bins: seq<Cnv>, chr: seq<string>, start: seq<int>, end: seq<int>, rd: seq<real>,
                      code: seq<int>, i: nat, start': seq<int>, code': seq<int>)
    requires |start| == |chr| && |end| == |chr| && |rd| == |chr| && |code| == |chr|
    requires i + 1 < |chr| && end[i] + 1 == start[i + 1] && code[i] == code[i + 1]
    requires PassInvariant(bins, Table(chr, start, end, rd, code), i)
    requires start' == start[i + 1 := start[i]] && code' == code[i := ABSORBED]
    ensures PassInvariant(bins, Table(chr, start', end, rd, code'), i + 1)
  {
    var rows := Table(chr, start, end, rd, code);
    PassAbsorb(bins, rows, i);
    assert Table(chr, start', end, rd, code')
        == rows[i := rows[i].(code := ABSORBED)][i + 1 := rows[i + 1].(start := rows[i].start)];
  }

  /** The keeping branch of the pass, on the columns. */
  lemma ColumnsKeep(bins: seq<Cnv>, chr: seq<string>, start: seq<int>, end: seq<int>, rd: seq<real>,
                    code: seq<int>, i: nat)
    requires |start| == |chr| && |end| == |chr| && |rd| == |chr| && |code| == |chr|
    requires i + 1 < |chr| && !(end[i] + 1 == start[i + 1] && code[i] == code[i + 1])
    requires code[i] != ABSORBED
    requires PassInvariant(bins, Table(chr, start, end, rd, code), i)
    ensures PassInvariant(bins, Table(chr, start, end, rd, code), i + 1)
  {
    PassKeep(bins, Table(chr, start, end, rd, code), i);
  }

  /** One iteration of the merge loop of `combiningCNV`: when bin `i` ends
      right before bin `i + 1` starts and both have the same type, bin
      `i + 1` takes over the start of bin `i` and bin `i` is marked
      absorbed; otherwise nothing changes. */
  method PassStep(start: array<int>, kind: array<int>, end: seq<int>,
                  ghost chr: seq<string>, ghost rd: seq<real>, ghost bins: seq<Cnv>, i: nat)
    requires start != kind
    requires start.Length == |chr| && kind.Length == |chr| && |end| == |chr| && |rd| == |chr|
    requires i + 1 < |end|
    requires forall j :: i <= j < |end| ==> kind[j] != ABSORBED
    requires PassInvariant(bins, Table(chr, start[..], end, rd, kind[..]), i)
    modifies start, kind
    ensures old(end[i] + 1 == start[i + 1] && kind[i] == kind[i + 1]) ==>
              start[..] == old(start[..])[i + 1 := old(start[i])] && kind[..] == old(kind[..])[i := ABSORBED]
    ensures !old(end[i] + 1 == start[i + 1] && kind[i] == kind[i + 1]) ==>
              start[..] == old(start[..]) && kind[..] == old(kind[..])
    ensures forall j :: i + 1 <= j < |end| ==> kind[j] != ABSORBED
    ensures PassInvariant(bins, Table(chr, start[..], end, rd, kind[..]), i + 1)
  {
    if end[i] + 1 == start[i + 1] && kind[i] == kind[i + 1] {
      ghost var before, typed := start[..], kind[..];
      start[i + 1] := start[i];
      kind[i] := ABSORBED;
      ColumnsAbsorb(bins, chr, before, end, rd, typed, i, start[..], kind[..]);
    } else {
      ColumnsKeep(bins, chr, start[..], end, rd, kind[..], i);
    }
  }

  /** The merge loop of `combiningCNV` (one left-to-right pass): a bin joined
      to its right neighbour hands its start on to it and is marked absorbed.
      Afterwards the rows left unabsorbed are exactly the reference merge of
      the rows before the pass. */
  method MergeAdjacent(start: array<int>, kind: array<int>, end: seq<int>,
                       ghost chr: seq<string>, ghost rd: seq<real>)
    requires start != kind
    requires start.Length == |chr| && kind.Length == |chr| && |end| == |chr| && |rd| == |chr|
    requires forall j :: 0 <= j < kind.Length ==> kind[j] != ABSORBED
    modifies start, kind
    ensures Survivors(Table(chr, start[..], end, rd, kind[..]))
         == Merge(Table(chr, old(start[..]), end, rd, old(kind[..])))
  {
    var n := |end|;
    ghost var bins := Table(chr, start[..], end, rd, kind[..]);
    var i := 0;
    while i + 1 < n
      invariant n == 0 ==> i == 0
      invariant n > 0 ==> i < n
      invariant forall j :: i <= j < n ==> kind[j] != ABSORBED
      invariant PassInvariant(bins, Table(chr, start[..], end, rd, kind[..]), i)
    {
      PassStep(start, kind, end, chr, rd, bins, i);
      i := i + 1;
    }
    if n > 0 {
      PassDone(bins, Table(chr, start[..], end, rd, kind[..]));
    }
  }

  /** The columns selected by `labels == 1`, with the classified type codes,
      are the rows of `Outliers`. */
  lemma KeptRows(segChr: seq<string>, segStart: seq<int>, segEnd: seq<int>, segCount: seq<real>,
                 labels: seq<int>, mode: real, code: seq<int>)
    requires |segStart| == |segChr| && |segEnd| == |segChr| && |segCount| == |segChr| && |labels| == |segChr|
    requires |code| == |Kept(LabelMask(labels))|
    requires forall j :: 0 <= j < |code| ==> code[j] == Classify(Select(segCount, LabelMask(labels))[j], mode)
    ensures var m := LabelMask(labels);
      Table(Select(segChr, m), Select(segStart, m), Select(segEnd, m), Select(segCount, m), code)
        == Outliers(segChr, segStart, segEnd, segCount, labels, mode)
  {
  }

  /** The five returned columns, parallel and of equal length, list `calls`
      row by row, each type under its name. */
  predicate ListsCalls(calls: seq<Cnv>, chr: seq<string>, start: seq<int>, end: seq<int>, rd: seq<real>,
                       typ: seq<string>)
  {
    && |chr| == |calls| && |start| == |calls| && |end| == |calls| && |rd| == |calls| && |typ| == |calls|
    && forall k :: 0 <= k < |calls| ==>
         && chr[k] == calls[k].chr && start[k] == calls[k].start && end[k] == calls[k].end
         && rd[k] == calls[k].rd && typ[k] == TypeName(calls[k].code)
  }

  /** The final step of `combiningCNV`: every column selected by the mask
      `type != 0`, and the type codes named. */
  function Emit(chr: seq<string>, start: seq<int>, end: seq<int>, rd: seq<real>, code: seq<int>)
    : (out: (seq<string>, seq<int>, seq<int>, seq<real>, seq<string>))
    requires |start| == |chr| && |end| == |chr| && |rd| == |chr| && |code| == |chr|
    ensures ListsCalls(Survivors(Table(chr, start, end, rd, code)), out.0, out.1, out.2, out.3, out.4)
  {
    SurvivorsSelected(Table(chr, start, end, rd, code));
    var survive := Survives(Table(chr, start, end, rd, code));
    var kept := Select(code, survive);
    (Select(chr, survive), Select(start, survive), Select(end, survive), Select(rd, survive),
     seq(|kept|, k requires 0 <= k < |kept| => TypeName(kept[k])))
  }

  /** The typing loop of `combiningCNV`: every outlier starts as a deletion
      and becomes a duplication when its depth exceeds the baseline. */
  method ClassifyOutliers(rd: seq<real>, mode: real) returns (kind: array<int>)
    ensures fresh(kind) && kind.Length == |rd|
    ensures forall j :: 0 <= j < |rd| ==> kind[j] == Classify(rd[j], mode)
  {
    var n := |rd|;
    kind := new int[n](_ => DELETION);
    for i := 0 to n
      invariant forall j :: 0 <= j < i ==> kind[j] == Classify(rd[j], mode)
      invariant forall j :: i <= j < n ==> kind[j] == DELETION
    {
      if rd[i] > mode {
        kind[i] := DUPLICATION;
      }
    }
  }

  /** `combiningCNV`: the returned columns list, row by row, the reference
      merge of the kept bins typed against the baseline. */
  method CombiningCnv(segChr: seq<string>, segStart: seq<int>, segEnd: seq<int>, segCount: seq<real>,
                      labels: seq<int>, mode: real)
    returns (cnvChr: seq<string>, cnvStart: seq<int>, cnvEnd: seq<int>, cnvRd: seq<real>, cnvType: seq<string>)
    requires |segStart| == |segChr| && |segEnd| == |segChr| && |segCount| == |segChr| && |labels| == |segChr|
    ensures ListsCalls(Merge(Outliers(segChr, segStart, segEnd, segCount, labels, mode)),
                       cnvChr, cnvStart, cnvEnd, cnvRd, cnvType)
  {
    // keep the outliers
    var index := LabelMask(labels);
    var chr := Select(segChr, index);
    var starts := Select(segStart, index);
    var end := Select(segEnd, index);
    var rd := Select(segCount, index);
    var n := |rd|;
    var start := new int[n](j requires 0 <= j < n => starts[j]);

    // type each outlier
    var kind := ClassifyOutliers(rd, mode);
    ghost var typed := kind[..];
    KeptRows(segChr, segStart, segEnd, segCount, labels, mode, typed);
    assert start[..] == starts;

    // merge adjacent same-type outliers
    MergeAdjacent(start, kind, end, chr, rd);

    // emit the outliers that were not absorbed
    var out := Emit(chr, start[..], end, rd, kind[..]);
    cnvChr, cnvStart, cnvEnd, cnvRd, cnvType := out.0, out.1, out.2, out.3, out.4;
  }

  /** Without a bin labelled 1 there is no call. */
  lemma NoOutliersNoCalls(chr: seq<string>, start: seq<int>, end: seq<int>, rd: seq<real>,
                          labels: seq<int>, mode: real)
    requires |start| == |chr| && |end| == |chr| && |rd| == |chr| && |labels| == |chr|
    requires forall k :: 0 <= k < |labels| ==> labels[k] != 1
    ensures Merge(Outliers(chr, start, end, rd, labels, mode)) == []
  {
  }

  // ---------------------------------------------------------------------
  // Worked examples

  /** Three 1000-bp bins, the last two labelled outliers with depths above
      the baseline 55: one duplication call over 1001..3000. Its read depth
      is that of the last bin (210), not of the first (200). */
  lemma ExampleTwoDuplicationBins()
    ensures Merge(Outliers(["chr1", "chr1", "chr1"], [1, 1001, 2001], [1000, 2000, 3000],
                           [50.0, 200.0, 210.0], [0, 1, 1], 55.0))
         == [Cnv("chr1", 1001, 3000, 210.0, DUPLICATION)]
  {
    ExampleOutliers();
    MergeSingleRun([Cnv("chr1", 1001, 2000, 200.0, DUPLICATION), Cnv("chr1", 2001, 3000, 210.0, DUPLICATION)]);
  }

  /** The two outlier bins of the example above, typed. */
  lemma ExampleOutliers()
    ensures Outliers(["chr1", "chr1", "chr1"], [1, 1001, 2001], [1000, 2000, 3000],
                     [50.0, 200.0, 210.0], [0, 1, 1], 55.0)
         == [Cnv("chr1", 1001, 2000, 200.0, DUPLICATION), Cnv("chr1", 2001, 3000, 210.0, DUPLICATION)]
  {
    var mask := LabelMask([0, 1, 1]);
    assert mask == [false, true, true];
    assert mask[..2] == [false, true];
    assert [false, true][..1] == [false];
    assert [false][..0] == [];
    assert Kept([false]) == [];
    assert Kept([false, true]) == [1];
    assert Kept(mask) == [1, 2];
  }

  /** Adjacent coordinates on different chromosomes still merge. */
  lemma ExampleChromosomeIgnored()
    ensures Merge([Cnv("chr1", 1, 1000, 10.0, DELETION), Cnv("chr2", 1001, 2000, 12.0, DELETION)])
         == [Cnv("chr2", 1, 2000, 12.0, DELETION)]
  {
    MergeSingleRun([Cnv("chr1", 1, 1000, 10.0, DELETION), Cnv("chr2", 1001, 2000, 12.0, DELETION)]);
  }
}
