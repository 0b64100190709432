/**
 * MyRule1: a single-tuple rule stating that zip code 1183JV lies in
 * Amsterdam, with a repair that sets the city back to "amsterdam".
 */
module Rule1 {
  import opened Wrappers
  import opened JavaStrings
  import opened DataModel
  import opened TupleModel
  import opened Violations

  /** The city cell and the zip cell of the tuple, when both columns exist. */
  function CityAndZip(t: Tuple): (cells: Option<(Cell, Cell)>)
    ensures cells.Some? <==> Column(t.TableName(), "city") in t.schema.columns && Column(t.TableName(), "zip") in t.schema.columns
    ensures cells.Some? ==>
      && cells.value.0.column == Column(t.TableName(), "city") && cells.value.0.tid == t.tid
      && Get(t, cells.value.0.column) == Some(cells.value.0.value)
      && cells.value.1.column == Column(t.TableName(), "zip") && cells.value.1.tid == t.tid
      && Get(t, cells.value.1.column) == Some(cells.value.1.value)
  {
    match (GetCellByName(t, "city"), GetCellByName(t, "zip"))
    case (Some(city), Some(zip)) => Some((city, zip))
    case _ => None
  }

  /**
   * detect: reads the city, then the zip, as text (a missing column or a
   * non-text value is an error, the city's first); flags the tuple when its zip
   * is 1183JV but its city is not Amsterdam, both ignoring case, with a violation
   * holding the city cell and the zip cell.
   */
  function Detect(ruleId: string, t: Tuple): (r: Result<seq<Violation>, AccessError>)
    ensures GetStringByName(t, "city").Failure? ==> r == Failure(GetStringByName(t, "city").error)
    ensures GetStringByName(t, "city").Success? && GetStringByName(t, "zip").Failure? ==> r == Failure(GetStringByName(t, "zip").error)
    ensures r.Success? <==> GetStringByName(t, "city").Success? && GetStringByName(t, "zip").Success?
    ensures r.Success? ==> |r.value| <= 1
    ensures r.Success? ==>
      (|r.value| == 1 <==> EqualsIgnoreCase(GetStringByName(t, "zip").value, "1183JV")
                           && !EqualsIgnoreCase(GetStringByName(t, "city").value, "amsterdam"))
    ensures r.Success? && |r.value| == 1 ==>
      && CityAndZip(t).Some?
      && r.value[0] == Violation(ruleId, 0, [CityAndZip(t).value.0, CityAndZip(t).value.1], [])
      && CityAndZip(t).value.0.value == Str(GetStringByName(t, "city").value)
      && CityAndZip(t).value.1.value == Str(GetStringByName(t, "zip").value)
  {
    var city :- GetStringByName(t, "city");
    var zip :- GetStringByName(t, "zip");
    if EqualsIgnoreCase(zip, "1183JV") && !EqualsIgnoreCase(city, "amsterdam") then
      var cells := CityAndZip(t).value;
      var v := AddCell(AddCell(NewViolation(ruleId), cells.0), cells.1);
      assert !HoldsCell([cells.0], cells.1);
      Success([v])
    else
      Success([])
  }

  /**
   * repair: one fix per city cell of the violation, in order, each setting the
   * cell to the constant "amsterdam".
   */
  function Repair(v: Violation): (fixes: seq<Fix>)
    ensures forall f :: f in fixes <==>
      f.vid == v.vid && f.left in v.cells && f.left.column.name == "city" && f.right == Literal("amsterdam")
    ensures forall c: Cell :: c.column.name == "city" ==>
      multiset(fixes)[Fix(v.vid, c, Literal("amsterdam"))] == multiset(v.cells)[c]
  {
    CityFixes(v.vid, v.cells)
  }

  /** The fixes for the city cells among the cells. */
  function CityFixes(vid: int, cells: seq<Cell>): (fixes: seq<Fix>)
    ensures forall f :: f in fixes <==>
      f.vid == vid && f.left in cells && f.left.column.name == "city" && f.right == Literal("amsterdam")
    ensures forall c: Cell :: c.column.name == "city" ==>
      multiset(fixes)[Fix(vid, c, Literal("amsterdam"))] == multiset(cells)[c]
  {
    if cells == [] then []
    else
      var pre := cells[..|cells| - 1];
      var c := cells[|cells| - 1];
      assert cells == pre + [c];
      CityFixes(vid, pre) + (if c.column.name == "city" then [Fix(vid, c, Literal("amsterdam"))] else [])
  }

  /** The fixes follow the cells' order: fixing two runs of cells is fixing each in turn. */
  lemma {:induction false} CityFixesAppend(vid: int, a: seq<Cell>, b: seq<Cell>)
    ensures CityFixes(vid, a + b) == CityFixes(vid, a) + CityFixes(vid, b)
    decreases |b|
  {
    if b == [] {
      assert a + b == a;
    } else {
      var pre := b[..|b| - 1];
      assert (a + b)[..|a + b| - 1] == a + pre;
      assert (a + b)[|a + b| - 1] == b[|b| - 1];
      CityFixesAppend(vid, a, pre);
    }
  }

  /** Whatever detect flags, repair answers with exactly one fix: the city cell becomes "amsterdam". */
  lemma DetectThenRepair(ruleId: string, t: Tuple)
    requires Detect(ruleId, t).Success? && |Detect(ruleId, t).value| == 1
    ensures Repair(Detect(ruleId, t).value[0]) == [Fix(0, CityAndZip(t).value.0, Literal("amsterdam"))]
  {
    var cells := CityAndZip(t).value;
    var v := Detect(ruleId, t).value[0];
    assert v.vid == 0 && v.cells == [cells.0, cells.1];
    assert [cells.0, cells.1][..1] == [cells.0];
    assert [cells.0][..0] == [];
    assert CityFixes(0, [cells.0]) == [Fix(0, cells.0, Literal("amsterdam"))];
    assert CityFixes(0, [cells.0, cells.1]) == CityFixes(0, [cells.0]);
  }

  /** The hospital table the case-insensitivity lemmas use: city, then zip. */
  const Hospital := Schema("hospital", [Column("hospital", "city"), Column("hospital", "zip")], None)

  /** A lower-case zip code 1183jv is still recognized. */
  lemma DetectIgnoresZipCase(ruleId: string)
    ensures var r := Detect(ruleId, Tuple(1, Hospital, [Str("Utrecht"), Str("1183jv")]));
      r.Success? && |r.value| == 1
  {
    assert IndexOf(Hospital.columns, Column("hospital", "city")) == Some(0);
    assert IndexOf(Hospital.columns, Column("hospital", "zip")) == Some(1);
    assert ToLower("1183jv") == "1183jv" == ToLower("1183JV");
    assert ToLower("Utrecht")[0] == 'u' != ToLower("amsterdam")[0];
  }

  /** An upper-case AMSTERDAM is still the right city. */
  lemma DetectIgnoresCityCase(ruleId: string)
    ensures Detect(ruleId, Tuple(2, Hospital, [Str("AMSTERDAM"), Str("1183jv")])) == Success([])
  {
    assert IndexOf(Hospital.columns, Column("hospital", "city")) == Some(0);
    assert IndexOf(Hospital.columns, Column("hospital", "zip")) == Some(1);
    assert ToLower("1183jv") == "1183jv" == ToLower("1183JV");
    assert ToLower("AMSTERDAM") == "amsterdam" == ToLower("amsterdam");
  }
}
