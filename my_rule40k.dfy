/**
 * MyRule40k: a pair rule over the hospital table that blocks on zipcode and
 * pairs tuples across value boundaries after sorting each block by city.
 */
module Rule40k {
  import opened Wrappers
  import opened DataModel
  import opened TupleModel
  import opened Violations
  import opened Tables

  const ZipCode: Column := Column("csv_hospital_40k", "zipcode")
  const City: Column := Column("csv_hospital_40k", "city")

  // ---------------------------------------------------------------------
  // The boundary scan, as a specification over positions
  // ---------------------------------------------------------------------

  /** The first position from k on whose tuple is not same-valued with t[pos1], or |t| if none. */
  function FirstMismatch(t: Table, pos1: nat, k: nat): (b: nat)
    requires pos1 < k <= |t|
    ensures k <= b <= |t|
    decreases |t| - k
  {
    if k == |t| then k
    else if !SameValue(t[pos1], Some(t[k])) then k
    else FirstMismatch(t, pos1, k + 1)
  }

  lemma {:induction false} FirstMismatchRun(t: Table, pos1: nat, k: nat)
    requires pos1 < k <= |t|
    ensures var b := FirstMismatch(t, pos1, k);
      && (forall m :: k <= m < b ==> SameValue(t[pos1], Some(t[m])))
      && (b < |t| ==> !SameValue(t[pos1], Some(t[b])))
    decreases |t| - k
  {
    if k < |t| && SameValue(t[pos1], Some(t[k])) {
      FirstMismatchRun(t, pos1, k + 1);
    }
  }

  /**
   * Where the run starting at pos1 ends: the first later position whose tuple
   * is not same-valued with t[pos1], or |t| when the run reaches the end.
   */
  function NextBoundary(t: Table, pos1: nat): (b: nat)
    requires pos1 < |t|
    ensures pos1 < b <= |t|
  {
    FirstMismatch(t, pos1, pos1 + 1)
  }

  /** Every tuple of the run is same-valued with its first, and the boundary tuple is not. */
  lemma NextBoundaryRun(t: Table, pos1: nat)
    requires pos1 < |t|
    ensures forall m :: pos1 < m < NextBoundary(t, pos1) ==> SameValue(t[pos1], Some(t[m]))
    ensures NextBoundary(t, pos1) < |t| ==> !SameValue(t[pos1], Some(t[NextBoundary(t, pos1)]))
  {
    FirstMismatchRun(t, pos1, pos1 + 1);
  }

  /** A position that ends a same-valued run at a mismatch or at the end is the boundary. */
  lemma {:induction false} NextBoundaryUnique(t: Table, pos1: nat, b: nat)
    requires pos1 < b <= |t|
    requires forall m :: pos1 < m < b ==> SameValue(t[pos1], Some(t[m]))
    requires b < |t| ==> !SameValue(t[pos1], Some(t[b]))
    ensures NextBoundary(t, pos1) == b
  {
    var k := pos1 + 1;
    while k < b
      invariant pos1 < k <= b
      invariant FirstMismatch(t, pos1, pos1 + 1) == FirstMismatch(t, pos1, k)
      decreases b - k
    {
      k := k + 1;
    }
  }

  /** The pairs (i, j) for lo <= j < hi, in increasing j. */
  function Row(i: nat, lo: nat, hi: nat): seq<(nat, nat)>
    decreases hi
  {
    if hi <= lo then [] else Row(i, lo, hi - 1) + [(i, hi - 1)]
  }

  /** The pairs of [lo, hi) x [b, n), row by row. */
  function Rows(lo: nat, hi: nat, b: nat, n: nat): seq<(nat, nat)>
    decreases hi
  {
    if hi <= lo then [] else Rows(lo, hi - 1, b, n) + Row(hi - 1, b, n)
  }

  lemma {:induction false} RowMember(i: nat, lo: nat, hi: nat, p: (nat, nat))
    ensures p in Row(i, lo, hi) <==> p.0 == i && lo <= p.1 < hi
    decreases hi
  {
    if hi > lo {
      var pre := Row(i, lo, hi - 1);
      assert Row(i, lo, hi) == pre + [(i, hi - 1)];
      RowMember(i, lo, hi - 1, p);
      assert p in pre + [(i, hi - 1)] <==> p in pre || p == (i, hi - 1);
    } else {
      assert Row(i, lo, hi) == [];
    }
  }

  lemma RowMembers(i: nat, lo: nat, hi: nat)
    ensures forall p :: p in Row(i, lo, hi) <==> p.0 == i && lo <= p.1 < hi
  {
    forall p
      ensures p in Row(i, lo, hi) <==> p.0 == i && lo <= p.1 < hi
    {
      RowMember(i, lo, hi, p);
    }
  }

  lemma {:induction false} RowsMember(lo: nat, hi: nat, b: nat, n: nat, p: (nat, nat))
    ensures p in Rows(lo, hi, b, n) <==> lo <= p.0 < hi && b <= p.1 < n
    decreases hi
  {
    if hi > lo {
      var above := Rows(lo, hi - 1, b, n);
      var row := Row(hi - 1, b, n);
      assert Rows(lo, hi, b, n) == above + row;
      RowsMember(lo, hi - 1, b, n, p);
      RowMember(hi - 1, b, n, p);
      assert p in above + row <==> p in above || p in row;
    } else {
      assert Rows(lo, hi, b, n) == [];
    }
  }

  /** Rows holds exactly the pairs of the rectangle [lo, hi) x [b, n). */
  lemma RowsMembers(lo: nat, hi: nat, b: nat, n: nat)
    ensures forall p :: p in Rows(lo, hi, b, n) <==> lo <= p.0 < hi && b <= p.1 < n
  {
    forall p
      ensures p in Rows(lo, hi, b, n) <==> lo <= p.0 < hi && b <= p.1 < n
    {
      RowsMember(lo, hi, b, n, p);
    }
  }

  /**
   * The positions the scan pairs, from run start pos1 on: at each boundary,
   * every position of the run before it against every position from the
   * boundary to the end; nothing for a run that reaches the end.
   */
  function ScanPairs(t: Table, pos1: nat): (r: seq<(nat, nat)>)
    ensures forall p :: p in r ==> pos1 <= p.0 < p.1 < |t|
    decreases |t| - pos1
  {
    if pos1 >= |t| then []
    else
      var pos2 := NextBoundary(t, pos1);
      RowsMembers(pos1, pos2, pos2, |t|);
      (if pos2 < |t| then Rows(pos1, pos2, pos2, |t|) else []) + ScanPairs(t, pos2)
  }

  /** The run starts after pos1: the positions where a value change is detected. */
  function Boundaries(t: Table, pos1: nat): (r: seq<nat>)
    ensures forall h :: h in r ==> pos1 < h < |t|
    decreases |t| - pos1
  {
    if pos1 >= |t| then []
    else
      var pos2 := NextBoundary(t, pos1);
      (if pos2 < |t| then [pos2] else []) + Boundaries(t, pos2)
  }

  lemma {:induction false} RowLength(i: nat, lo: nat, hi: nat)
    requires lo <= hi
    ensures |Row(i, lo, hi)| == hi - lo
    decreases hi
  {
    if hi > lo {
      RowLength(i, lo, hi - 1);
    }
  }

  /** Each boundary emits exactly (pos2 - pos1) * (n - pos2) pairs. */
  lemma {:induction false} RowsLength(lo: nat, hi: nat, b: nat, n: nat)
    requires lo <= hi && b <= n
    ensures |Rows(lo, hi, b, n)| == (hi - lo) * (n - b)
    decreases hi
  {
    if hi > lo {
      RowsLength(lo, hi - 1, b, n);
      RowLength(hi - 1, b, n);
      assert (hi - lo) * (n - b) == (hi - 1 - lo) * (n - b) + (n - b);
    }
  }

  /** The pairs (t[i], t[j]) for lo <= j < hi, in increasing j. */
  function RowPairs(t: Table, i: nat, lo: nat, hi: nat): seq<TuplePair>
    requires i < |t| && hi <= |t|
    decreases hi
  {
    if hi <= lo then [] else RowPairs(t, i, lo, hi - 1) + [TuplePair(t[i], t[hi - 1])]
  }

  /** The pairs of the rectangle [lo, hi) x [b, |t|), row by row. */
  function RectPairs(t: Table, lo: nat, hi: nat, b: nat): seq<TuplePair>
    requires hi <= |t| && b <= |t|
    decreases hi
  {
    if hi <= lo then [] else RectPairs(t, lo, hi - 1, b) + RowPairs(t, hi - 1, b, |t|)
  }

  /** The stream the scan puts, from run start pos1 on. */
  function ScanStream(t: Table, pos1: nat): seq<TuplePair>
    decreases |t| - pos1
  {
    if pos1 >= |t| then []
    else
      var pos2 := NextBoundary(t, pos1);
      (if pos2 < |t| then RectPairs(t, pos1, pos2, pos2) else []) + ScanStream(t, pos2)
  }

  /** Every pair the scan emits is separated by a boundary. */
  lemma {:induction false} ScanPairsStraddle(t: Table, pos1: nat, p: (nat, nat))
    requires p in ScanPairs(t, pos1)
    ensures exists h :: h in Boundaries(t, pos1) && p.0 < h <= p.1
    decreases |t| - pos1
  {
    var pos2 := NextBoundary(t, pos1);
    var here := if pos2 < |t| then Rows(pos1, pos2, pos2, |t|) else [];
    assert ScanPairs(t, pos1) == here + ScanPairs(t, pos2);
    assert Boundaries(t, pos1) == (if pos2 < |t| then [pos2] else []) + Boundaries(t, pos2);
    if p in here {
      RowsMembers(pos1, pos2, pos2, |t|);
      assert pos2 in Boundaries(t, pos1);
    } else {
      ScanPairsStraddle(t, pos2, p);
      var h :| h in Boundaries(t, pos2) && p.0 < h <= p.1;
      assert h in Boundaries(t, pos1);
    }
  }

  /** Every pair of positions that a boundary separates is emitted by the scan. */
  lemma {:induction false} ScanPairsCover(t: Table, pos1: nat, p: (nat, nat), h: nat)
    requires pos1 <= p.0 < p.1 < |t|
    requires h in Boundaries(t, pos1) && p.0 < h <= p.1
    ensures p in ScanPairs(t, pos1)
    decreases |t| - pos1
  {
    var pos2 := NextBoundary(t, pos1);
    var here := if pos2 < |t| then Rows(pos1, pos2, pos2, |t|) else [];
    assert ScanPairs(t, pos1) == here + ScanPairs(t, pos2);
    var later := Boundaries(t, pos2);
    assert Boundaries(t, pos1) == (if pos2 < |t| then [pos2] else []) + later;
    if p.0 < pos2 {
      assert pos2 < |t| && pos2 <= h;
      RowsMembers(pos1, pos2, pos2, |t|);
    } else {
      assert h in later;
      ScanPairsCover(t, pos2, p, h);
    }
  }

  /**
   * The scan leaves a gap: a tuple can match the run's first tuple on the row
   * identifier and another on the other columns, so two tuples of one run that
   * are not same-valued are never paired.
   */
  lemma ScanMissesPairInsideRun()
    ensures exists t: Table :: |t| == 3 && ScanPairs(t, 0) == [] && !SameValue(t[1], Some(t[2]))
  {
    var s: Schema := Schema("csv_hospital_40k", [Column("csv_hospital_40k", "tid"), City], Some(0));
    var head: Tuple := Tuple(1, s, [Num(1), Str("a")]);
    var sameCity: Tuple := Tuple(2, s, [Num(2), Str("a")]);
    var sameTid: Tuple := Tuple(3, s, [Num(1), Str("b")]);
    var t: Table := [head, sameCity, sameTid];
    assert SameValue(head, Some(sameCity)) by {
      assert AgreeOffTid(head, sameCity) by {
        forall i | 0 <= i < 2 && !IsTidIndex(s, i)
          ensures head.values[i] == sameCity.values[i]
        {
          assert i == 1;
        }
      }
    }
    assert SameValue(head, Some(sameTid)) by {
      assert TidsMatch(head, sameTid);
    }
    assert !SameValue(sameCity, Some(sameTid)) by {
      assert !TidsMatch(sameCity, sameTid);
      assert !IsTidIndex(s, 1) && sameCity.values[1] != sameTid.values[1];
    }
    assert t[0] == head && t[1] == sameCity && t[2] == sameTid;
    assert forall m :: 0 < m < 3 ==> SameValue(t[0], Some(t[m])) by {
      forall m | 0 < m < 3
        ensures SameValue(t[0], Some(t[m]))
      {
        if m == 1 {} else {}
      }
    }
    NextBoundaryUnique(t, 0, 3);
    assert ScanPairs(t, 0) == ScanPairs(t, 3) == [];
  }

  /** Both positions of every pair index t. */
  predicate InRange(t: Table, idx: seq<(nat, nat)>) {
    forall p :: p in idx ==> p.0 < |t| && p.1 < |t|
  }

  /**
   * The tuple pairs at the given positions, in order; a position outside the
   * table contributes nothing (the scan's positions are all inside, as
   * ScanPairs states).
   */
  function PairsAt(t: Table, idx: seq<(nat, nat)>): (r: seq<TuplePair>)
  {
    if idx == [] then []
    else
      var pre := idx[..|idx| - 1];
      var last := idx[|idx| - 1];
      assert InRange(t, idx) ==> InRange(t, pre) && last.0 < |t| && last.1 < |t| by {
        assert last in idx;
        assert forall p :: p in pre ==> p in idx;
      }
      PairsAt(t, pre) + (if last.0 < |t| && last.1 < |t| then [TuplePair(t[last.0], t[last.1])] else [])
  }

  /** Positions inside the table each give one pair: the k-th pair is the tuples at the k-th positions. */
  lemma {:induction false} PairsAtInRange(t: Table, idx: seq<(nat, nat)>)
    requires InRange(t, idx)
    ensures |PairsAt(t, idx)| == |idx|
    ensures forall k :: 0 <= k < |idx| ==>
      PairsAt(t, idx)[k] == TuplePair(t[idx[k].0], t[idx[k].1])
  {
    if idx != [] {
      var pre := idx[..|idx| - 1];
      var last := idx[|idx| - 1];
      assert InRange(t, pre) && last.0 < |t| && last.1 < |t|;
      PairsAtInRange(t, pre);
      var r := PairsAt(t, idx);
      assert r == PairsAt(t, pre) + [TuplePair(t[last.0], t[last.1])];
      forall k | 0 <= k < |idx|
        ensures r[k] == TuplePair(t[idx[k].0], t[idx[k].1])
      {
        if k < |pre| {
          assert idx[k] == pre[k];
        }
      }
    }
  }

  lemma {:induction false} PairsAtAppend(t: Table, a: seq<(nat, nat)>, b: seq<(nat, nat)>)
    ensures PairsAt(t, a + b) == PairsAt(t, a) + PairsAt(t, b)
    decreases |b|
  {
    if b != [] {
      var b' := b[..|b| - 1];
      assert (a + b)[..|a + b| - 1] == a + b';
      assert (a + b)[|a + b| - 1] == b[|b| - 1];
      PairsAtAppend(t, a, b');
    } else {
      assert a + b == a;
    }
  }

  lemma PairsAtSingle(t: Table, i: nat, j: nat)
    requires i < |t| && j < |t|
    ensures PairsAt(t, [(i, j)]) == [TuplePair(t[i], t[j])]
  {
    assert [(i, j)][..0] == [];
  }

  lemma {:induction false} RowPairsAt(t: Table, i: nat, lo: nat, hi: nat)
    requires i < |t| && hi <= |t|
    ensures RowPairs(t, i, lo, hi) == PairsAt(t, Row(i, lo, hi))
    decreases hi
  {
    if hi > lo {
      var pre := Row(i, lo, hi - 1);
      RowPairsAt(t, i, lo, hi - 1);
      PairsAtAppend(t, pre, [(i, hi - 1)]);
      PairsAtSingle(t, i, hi - 1);
      calc {
        RowPairs(t, i, lo, hi);
        RowPairs(t, i, lo, hi - 1) + [TuplePair(t[i], t[hi - 1])];
        PairsAt(t, pre) + PairsAt(t, [(i, hi - 1)]);
        PairsAt(t, pre + [(i, hi - 1)]);
        PairsAt(t, Row(i, lo, hi));
      }
    }
  }

  /** One more row of the rectangle extends both sides alike. */
  lemma RectPairsStep(t: Table, lo: nat, hi: nat, b: nat)
    requires lo < hi <= |t| && b <= |t|
    requires RectPairs(t, lo, hi - 1, b) == PairsAt(t, Rows(lo, hi - 1, b, |t|))
    ensures RectPairs(t, lo, hi, b) == PairsAt(t, Rows(lo, hi, b, |t|))
  {
    var above := Rows(lo, hi - 1, b, |t|);
    var row := Row(hi - 1, b, |t|);
    RowPairsAt(t, hi - 1, b, |t|);
    PairsAtAppend(t, above, row);
    calc {
      RectPairs(t, lo, hi, b);
      RectPairs(t, lo, hi - 1, b) + RowPairs(t, hi - 1, b, |t|);
      PairsAt(t, above) + PairsAt(t, row);
      PairsAt(t, above + row);
      PairsAt(t, Rows(lo, hi, b, |t|));
    }
  }

  lemma {:induction false} RectPairsAt(t: Table, lo: nat, hi: nat, b: nat)
    requires hi <= |t| && b <= |t|
    ensures RectPairs(t, lo, hi, b) == PairsAt(t, Rows(lo, hi, b, |t|))
    decreases hi
  {
    if hi > lo {
      RectPairsAt(t, lo, hi - 1, b);
      RectPairsStep(t, lo, hi, b);
    }
  }

  /** The stream is the tuple pairs at exactly the positions ScanPairs characterizes. */
  lemma {:induction false} ScanStreamAt(t: Table, pos1: nat)
    ensures ScanStream(t, pos1) == PairsAt(t, ScanPairs(t, pos1))
    decreases |t| - pos1
  {
    if pos1 < |t| {
      var pos2 := NextBoundary(t, pos1);
      ScanStreamAt(t, pos2);
      if pos2 < |t| {
        RectPairsAt(t, pos1, pos2, pos2);
        PairsAtAppend(t, Rows(pos1, pos2, pos2, |t|), ScanPairs(t, pos2));
      } else {
        assert ScanPairs(t, pos1) == ScanPairs(t, pos2);
      }
    }
  }

  // ---------------------------------------------------------------------
  // Repair, as a specification
  // ---------------------------------------------------------------------

  /** The position of the first cell of the column, if any. */
  function FirstIndex(cells: seq<Cell>, column: Column): (r: Option<nat>)
    ensures r.Some? ==> r.value < |cells| && cells[r.value].column == column
                        && forall m :: 0 <= m < r.value ==> cells[m].column != column
    ensures r.None? <==> forall m :: 0 <= m < |cells| ==> cells[m].column != column
  {
    if cells == [] then None
    else
      match FirstIndex(cells[..|cells| - 1], column)
      case Some(k) => Some(k)
      case None => if cells[|cells| - 1].column == column then Some(|cells| - 1) else None
  }

  /**
   * The fixes repair proposes: each cell of a right-hand-side column that is not
   * the first cell of its column gets a fix towards that first cell.
   */
  function PairFixes(vid: int, cells: seq<Cell>, rhs: seq<Column>): seq<Fix> {
    if cells == [] then []
    else
      var pre := cells[..|cells| - 1];
      var c := cells[|cells| - 1];
      PairFixes(vid, pre, rhs)
        + match FirstIndex(pre, c.column)
          case Some(k) => if c.column in rhs then [Fix(vid, c, CellTarget(pre[k]))] else []
          case None => []
  }

  /** The cells whose column is on the right-hand side. */
  function RhsCellCount(cells: seq<Cell>, rhs: seq<Column>): nat {
    if cells == [] then 0
    else RhsCellCount(cells[..|cells| - 1], rhs) + (if cells[|cells| - 1].column in rhs then 1 else 0)
  }

  /** The right-hand-side columns that occur among the cells. */
  function RhsColumns(cells: seq<Cell>, rhs: seq<Column>): set<Column> {
    if cells == [] then {}
    else
      var c := cells[|cells| - 1];
      RhsColumns(cells[..|cells| - 1], rhs) + (if c.column in rhs then {c.column} else {})
  }

  /** Adding one cell changes the first cell of its column only when there was none. */
  lemma FirstIndexStep(cells: seq<Cell>, i: nat)
    requires i < |cells|
    ensures forall col ::
              FirstIndex(cells[..i + 1], col) ==
                if FirstIndex(cells[..i], col).Some? then FirstIndex(cells[..i], col)
                else if cells[i].column == col then Some(i) else None
  {
    var next := cells[..i + 1];
    assert next[..|next| - 1] == cells[..i];
    assert next[|next| - 1] == cells[i];
  }

  /** One more cell adds at most one fix: towards the first earlier cell of its column. */
  lemma PairFixesStep(vid: int, cells: seq<Cell>, i: nat, rhs: seq<Column>)
    requires i < |cells|
    ensures PairFixes(vid, cells[..i + 1], rhs) == PairFixes(vid, cells[..i], rhs) +
      (if cells[i].column in rhs && FirstIndex(cells[..i], cells[i].column).Some?
       then [Fix(vid, cells[i], CellTarget(cells[FirstIndex(cells[..i], cells[i].column).value]))]
       else [])
  {
    var next := cells[..i + 1];
    assert next[..|next| - 1] == cells[..i];
    assert next[|next| - 1] == cells[i];
  }

  /** A column is among RhsColumns exactly when it is on the right-hand side and has a cell. */
  lemma {:induction false} RhsColumnsMembers(cells: seq<Cell>, rhs: seq<Column>)
    ensures forall col :: col in RhsColumns(cells, rhs) <==> col in rhs && FirstIndex(cells, col).Some?
  {
    if cells != [] {
      var pre := cells[..|cells| - 1];
      RhsColumnsMembers(pre, rhs);
      FirstIndexStep(cells, |cells| - 1);
      assert cells[..|cells|] == cells;
    }
  }

  /** Every right-hand-side cell yields a fix except the first of each column. */
  lemma {:induction false} PairFixesCount(vid: int, cells: seq<Cell>, rhs: seq<Column>)
    ensures |PairFixes(vid, cells, rhs)| + |RhsColumns(cells, rhs)| == RhsCellCount(cells, rhs)
  {
    if cells == [] {
      assert RhsColumns(cells, rhs) == {};
    } else {
      var pre := cells[..|cells| - 1];
      var c := cells[|cells| - 1];
      PairFixesCount(vid, pre, rhs);
      RhsColumnsMembers(pre, rhs);
      if c.column in rhs {
        assert RhsColumns(cells, rhs) == RhsColumns(pre, rhs) + {c.column};
        assert c.column in RhsColumns(pre, rhs) <==> FirstIndex(pre, c.column).Some?;
      } else {
        assert RhsColumns(cells, rhs) == RhsColumns(pre, rhs);
      }
    }
  }

  /**
   * Every fix changes a right-hand-side cell to the first cell of the same
   * column, which comes earlier in the violation.
   */
  lemma {:induction false} PairFixesTargetFirstCell(vid: int, cells: seq<Cell>, rhs: seq<Column>)
    ensures forall f :: f in PairFixes(vid, cells, rhs) ==>
      && f.vid == vid && f.left in cells && f.left.column in rhs
      && FirstIndex(cells, f.left.column).Some?
      && f.right == CellTarget(cells[FirstIndex(cells, f.left.column).value])
  {
    if cells != [] {
      var pre := cells[..|cells| - 1];
      PairFixesTargetFirstCell(vid, pre, rhs);
      assert forall col :: FirstIndex(pre, col).Some? ==> FirstIndex(cells, col) == FirstIndex(pre, col);
      assert forall x :: x in pre ==> x in cells;
    }
  }

  /** The cell a fix changes sits after the first cell of its column: the first cell itself is never fixed. */
  lemma {:induction false} PairFixLaterCell(vid: int, cells: seq<Cell>, rhs: seq<Column>, f: Fix)
    requires f in PairFixes(vid, cells, rhs)
    ensures FirstIndex(cells, f.left.column).Some?
    ensures exists k :: FirstIndex(cells, f.left.column).value < k < |cells| && cells[k] == f.left
  {
    var pre := cells[..|cells| - 1];
    var c := cells[|cells| - 1];
    if f in PairFixes(vid, pre, rhs) {
      PairFixLaterCell(vid, pre, rhs, f);
      var k :| FirstIndex(pre, f.left.column).value < k < |pre| && pre[k] == f.left;
      assert FirstIndex(cells, f.left.column) == FirstIndex(pre, f.left.column);
      assert cells[k] == f.left;
    } else {
      assert f.left == c && FirstIndex(pre, c.column).Some?;
      assert FirstIndex(cells, c.column) == FirstIndex(pre, c.column);
      assert cells[|cells| - 1] == f.left;
    }
  }

  /**
   * The order in which the cells are walked decides the direction of a fix:
   * of two city cells, the later one is fixed towards the earlier one.
   */
  lemma CellOrderDecidesDirection(vid: int, c1: Cell, c2: Cell)
    requires c1.column == City && c2.column == City
    ensures PairFixes(vid, [c1, c2], [City]) == [Fix(vid, c2, CellTarget(c1))]
    ensures PairFixes(vid, [c2, c1], [City]) == [Fix(vid, c1, CellTarget(c2))]
  {
    assert [c1, c2][..1] == [c1] && [c1][..0] == [];
    assert FirstIndex([c1], City) == Some(0) && PairFixes(vid, [c1], [City]) == [];
    assert [c2, c1][..1] == [c2] && [c2][..0] == [];
    assert FirstIndex([c2], City) == Some(0) && PairFixes(vid, [c2], [City]) == [];
  }

  /** Every right-hand-side cell after the first cell of its column gets a fix towards that first cell. */
  lemma {:induction false} PairFixesCover(vid: int, cells: seq<Cell>, rhs: seq<Column>, k: nat)
    requires k < |cells| && cells[k].column in rhs
    requires FirstIndex(cells, cells[k].column) != Some(k)
    ensures FirstIndex(cells, cells[k].column).Some?
    ensures Fix(vid, cells[k], CellTarget(cells[FirstIndex(cells, cells[k].column).value])) in PairFixes(vid, cells, rhs)
  {
    var pre := cells[..|cells| - 1];
    var col := cells[k].column;
    if k == |cells| - 1 {
      assert FirstIndex(pre, col).Some?;
    } else {
      assert pre[k] == cells[k];
      PairFixesCover(vid, pre, rhs, k);
      assert FirstIndex(cells, col) == FirstIndex(pre, col);
    }
  }

  // ---------------------------------------------------------------------
  // The rule
  // ---------------------------------------------------------------------

  class MyRule40k {
    var ruleName: string
    var tableNames: seq<string>
    var leftHandSide: seq<Column>
    var rightHandSide: seq<Column>

    constructor ()
      ensures ruleName == "" && tableNames == []
      ensures leftHandSide == [] && rightHandSide == []
    {
      ruleName := "";
      tableNames := [];
      leftHandSide := [];
      rightHandSide := [];
    }

    /** initialize: binds the id and table names, and appends zipcode to the left and city to the right side. */
    method Initialize(id: string, names: seq<string>)
      modifies this
      ensures ruleName == id && tableNames == names
      ensures leftHandSide == old(leftHandSide) + [ZipCode]
      ensures rightHandSide == old(rightHandSide) + [City]
    {
      ruleName := id;
      tableNames := names;
      leftHandSide := leftHandSide + [ZipCode];
      rightHandSide := rightHandSide + [City];
    }

    /**
     * block: groups the first table on the left-hand-side columns. Every tuple
     * lands in exactly one block, and a block holds the tuples of one zipcode.
     */
    function Block(tables: seq<Table>): (blocks: seq<Table>)
      reads this
      requires |tables| > 0
      ensures multiset(Flatten(blocks)) == multiset(tables[0])
      ensures forall i, x :: 0 <= i < |blocks| && x in blocks[i] ==> blocks[i] != [] && Key(x, leftHandSide) == Key(blocks[i][0], leftHandSide)
      ensures forall i, j :: 0 <= i < j < |blocks| ==> blocks[i] != [] && blocks[j] != [] && Key(blocks[i][0], leftHandSide) != Key(blocks[j][0], leftHandSide)
    {
      GroupOn(tables[0], leftHandSide)
    }

    /**
     * The emission step of iterator: every position of the run [lo, b) against
     * every position from the boundary b to the end, in row order.
     */
    static method EmitStraddling(table: Table, lo: nat, b: nat) returns (out: seq<TuplePair>)
      requires lo <= b <= |table|
      ensures out == RectPairs(table, lo, b, b)
    {
      var n := |table|;
      out := [];
      var i := lo;
      while i < b
        invariant lo <= i <= b
        invariant out == RectPairs(table, lo, i, b)
      {
        var j := b;
        while j < n
          invariant b <= j <= n
          invariant out == RectPairs(table, lo, i, b) + RowPairs(table, i, b, j)
        {
          out := out + [TuplePair(table[i], table[j])];
          j := j + 1;
        }
        i := i + 1;
      }
    }

    /**
     * The cursor step of iterator: advances from the run start pos1 until a
     * tuple is not same-valued with table[pos1]; reports where and whether one was found.
     */
    static method FindBoundary(table: Table, pos1: nat) returns (pos2: nat, findViolation: bool)
      requires pos1 < |table|
      ensures pos2 == NextBoundary(table, pos1)
      ensures findViolation <==> pos2 < |table|
    {
      var n := |table|;
      findViolation := false;
      pos2 := pos1 + 1;
      while pos2 < n
        invariant pos1 < pos2 <= n
        invariant forall m :: pos1 < m < pos2 ==> SameValue(table[pos1], Some(table[m]))
        invariant !findViolation
        decreases n - pos2
      {
        var same := HasSameValue(table[pos1], Some(table[pos2]));
        findViolation := !same;
        if findViolation {
          break;
        }
        pos2 := pos2 + 1;
      }
      NextBoundaryUnique(table, pos1, pos2);
    }

    /**
     * The two-cursor walk of iterator over an already ordered block: pos1 marks
     * the run start, pos2 advances to the first tuple not same-valued with it,
     * and at such a boundary every straddling pair goes into the stream.
     */
    static method Scan(table: Table) returns (stream: seq<TuplePair>)
      ensures stream == ScanStream(table, 0)
    {
      var n := |table|;
      stream := [];
      var pos1 := 0;
      while pos1 < n
        invariant 0 <= pos1 <= n
        invariant ScanStream(table, 0) == stream + ScanStream(table, pos1)
        decreases n - pos1
      {
        var pos2, findViolation := FindBoundary(table, pos1);
        if findViolation {
          var emitted := EmitStraddling(table, pos1, pos2);
          stream := stream + emitted;
        }
        pos1 := pos2;
      }
    }

    /**
     * iterator: sorts the block by the right-hand-side columns and scans it;
     * returns the reordered block and the stream's contents, which are the
     * pairs at the boundary-straddling positions of the ordered block.
     */
    method Iterator(tables: seq<Table>) returns (table: Table, stream: seq<TuplePair>)
      requires |tables| > 0
      ensures table == OrderBy(tables[0], rightHandSide)
      ensures InRange(table, ScanPairs(table, 0))
      ensures stream == PairsAt(table, ScanPairs(table, 0))
    {
      table := OrderBy(tables[0], rightHandSide);
      stream := Scan(table);
      ScanStreamAt(table, 0);
    }

    /** detect: exactly one violation, naming both tuples of the pair and holding all their cells. */
    function Detect(pair: TuplePair): (r: seq<Violation>)
      reads this
      ensures |r| == 1
      ensures r[0].ruleId == ruleName && r[0].tuples == [pair.left, pair.right]
      ensures forall c :: c in CellsOf(pair.left) || c in CellsOf(pair.right) ==> HoldsCell(r[0].cells, c)
      ensures forall k :: 0 <= k < |r[0].cells| ==> r[0].cells[k] in CellsOf(pair.left) || r[0].cells[k] in CellsOf(pair.right)
      ensures DistinctCells(r[0].cells)
    {
      var v0 := NewViolation(ruleName);
      var v1 := AddTuple(v0, pair.left);
      var v2 := AddTuple(v1, pair.right);
      AddTupleSpec(v0, pair.left);
      AddTupleSpec(v1, pair.right);
      assert forall c :: HoldsCell(v1.cells, c) ==> HoldsCell(v2.cells, c) by {
        forall c | HoldsCell(v1.cells, c) ensures HoldsCell(v2.cells, c) {
          var k :| 0 <= k < |v1.cells| && SameCell(v1.cells[k], c);
          assert v2.cells[k] == v1.cells[k];
        }
      }
      [v2]
    }

    /**
     * repair: for each right-hand-side cell, the first one seen becomes the
     * candidate of its column and each later one yields a fix towards it.
     */
    method Repair(v: Violation) returns (fixes: seq<Fix>)
      ensures fixes == PairFixes(v.vid, v.cells, rightHandSide)
    {
      var candidates: map<Column, Cell> := map[];
      fixes := [];
      var i := 0;
      while i < |v.cells|
        invariant 0 <= i <= |v.cells|
        invariant fixes == PairFixes(v.vid, v.cells[..i], rightHandSide)
        invariant forall col :: col in candidates <==> col in rightHandSide && FirstIndex(v.cells[..i], col).Some?
        invariant forall col :: col in candidates ==> candidates[col] == v.cells[FirstIndex(v.cells[..i], col).value]
      {
        var cell := v.cells[i];
        var column := cell.column;
        FirstIndexStep(v.cells, i);
        PairFixesStep(v.vid, v.cells, i, rightHandSide);
        if column in rightHandSide {
          if column in candidates {
            var right := candidates[column];
            fixes := fixes + [Fix(v.vid, cell, CellTarget(right))];
          } else {
            candidates := candidates[column := cell];
          }
        }
        i := i + 1;
      }
      assert v.cells[..|v.cells|] == v.cells;
    }
  }

  /** A two-tuple block whose tuples differ yields exactly one pair. */
  lemma TwoTupleScan(t: Table)
    requires |t| == 2
    requires !SameValue(t[0], Some(t[1]))
    ensures ScanStream(t, 0) == [TuplePair(t[0], t[1])]
  {
    NextBoundaryUnique(t, 0, 1);
    NextBoundaryUnique(t, 1, 2);
    assert ScanStream(t, 1) == [];
    assert RectPairs(t, 0, 1, 1) == RowPairs(t, 0, 1, 2);
  }

  /**
   * Two tuples of one zipcode that are not same-valued either way: block puts
   * them in one group, and the scan of the ordered group emits exactly one pair.
   */
  lemma TwoTupleBlock(a: Tuple, b: Tuple, lhs: seq<Column>, rhs: seq<Column>)
    requires Key(a, lhs) == Key(b, lhs)
    requires !SameValue(a, Some(b)) && !SameValue(b, Some(a))
    ensures GroupOn([a, b], lhs) == [[a, b]]
    ensures |ScanStream(OrderBy([a, b], rhs), 0)| == 1
  {
    GroupOnUniform([a, b], lhs);
    var t := OrderBy([a, b], rhs);
    assert t[0] in multiset(t) && t[1] in multiset(t);
    assert multiset(t) == multiset{a, b};
    assert t[0] != t[1];
    TwoTupleScan(t);
  }
}
