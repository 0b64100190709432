/** Violations: a rule id, an accumulating list of implicated cells, and the source tuples. */
module Violations {
  import opened DataModel
  import opened TupleModel

  /** One detected defect. `vid` is the identifier fixes refer back to; it is 0 until the violation is stored. */
  datatype Violation = Violation(ruleId: string, vid: int, cells: seq<Cell>, tuples: seq<Tuple>)

  /** new Violation(ruleId): no cells and no tuples yet. */
  function NewViolation(ruleId: string): Violation {
    Violation(ruleId, 0, [], [])
  }

  /** Cell identity ignores the value: the same column of the same tuple. */
  predicate SameCell(a: Cell, b: Cell) {
    a.column == b.column && a.tid == b.tid
  }

  predicate HoldsCell(cells: seq<Cell>, c: Cell) {
    exists k :: 0 <= k < |cells| && SameCell(cells[k], c)
  }

  /** No two cells of the list share an identity. */
  predicate DistinctCells(cells: seq<Cell>) {
    forall i, j :: 0 <= i < j < |cells| ==> !SameCell(cells[i], cells[j])
  }

  /** addCell: the cell joins the set unless a cell of the same identity is already there. */
  function AddCell(v: Violation, c: Cell): Violation {
    if HoldsCell(v.cells, c) then v else v.(cells := v.cells + [c])
  }

  function AddCells(v: Violation, cs: seq<Cell>): Violation
    decreases |cs|
  {
    if cs == [] then v else AddCells(AddCell(v, cs[0]), cs[1..])
  }

  /** addTuple: records the tuple and adds each of its cells. */
  function AddTuple(v: Violation, t: Tuple): Violation {
    AddCells(v.(tuples := v.tuples + [t]), CellsOf(t))
  }

  /** Adding cells keeps identities distinct, loses no cell and changes nothing but the cells. */
  lemma {:induction false} AddCellsSpec(v: Violation, cs: seq<Cell>)
    requires DistinctCells(v.cells)
    ensures var r := AddCells(v, cs);
      && DistinctCells(r.cells)
      && |v.cells| <= |r.cells| && v.cells == r.cells[..|v.cells|]
      && (forall c :: c in cs ==> HoldsCell(r.cells, c))
      && (forall k :: 0 <= k < |r.cells| ==> r.cells[k] in v.cells || r.cells[k] in cs)
      && r.ruleId == v.ruleId && r.vid == v.vid && r.tuples == v.tuples
    decreases |cs|
  {
    if cs != [] {
      var w := AddCell(v, cs[0]);
      if !HoldsCell(v.cells, cs[0]) {
        assert SameCell(w.cells[|v.cells|], cs[0]);
      }
      assert HoldsCell(w.cells, cs[0]);
      AddCellsSpec(w, cs[1..]);
      var r := AddCells(w, cs[1..]);
      assert w.cells == r.cells[..|w.cells|];
      assert HoldsCell(r.cells, cs[0]) by {
        var k :| 0 <= k < |w.cells| && SameCell(w.cells[k], cs[0]);
        assert r.cells[k] == w.cells[k];
      }
      assert v.cells == w.cells[..|v.cells|];
    }
  }

  /** addTuple keeps cell identities distinct, and the violation then holds every cell of the tuple. */
  lemma AddTupleSpec(v: Violation, t: Tuple)
    requires DistinctCells(v.cells)
    ensures var r := AddTuple(v, t);
      && DistinctCells(r.cells)
      && |v.cells| <= |r.cells| && v.cells == r.cells[..|v.cells|]
      && r.tuples == v.tuples + [t]
      && (forall c :: c in CellsOf(t) ==> HoldsCell(r.cells, c))
      && (forall k :: 0 <= k < |r.cells| ==> r.cells[k] in v.cells || r.cells[k] in CellsOf(t))
      && r.ruleId == v.ruleId
  {
    AddCellsSpec(v.(tuples := v.tuples + [t]), CellsOf(t));
  }
}
