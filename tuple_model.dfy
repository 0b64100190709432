/** Tuple.java: construction, value and cell lookup, table-name test and value equality. */
module TupleModel {
  import opened Wrappers
  import opened JavaStrings
  import opened DataModel

  /** The IllegalArgumentException the constructor throws, by cause. */
  datatype TupleError = NullOrInvalidId | SizeMismatch

  /** The Tuple constructor: null arguments and ids below 1 are refused first, then a size mismatch. */
  function NewTuple(tupleId: int, schema: Option<Schema>, values: Option<seq<Value>>): (r: Result<Tuple, TupleError>)
    ensures r.Success? <==> schema.Some? && values.Some? && tupleId >= 1
                            && |values.value| == |schema.value.columns|
    ensures schema.None? || values.None? || tupleId < 1 ==> r == Failure(NullOrInvalidId)
    ensures r.Failure? && r.error == SizeMismatch ==> |values.value| != |schema.value.columns|
    ensures schema.Some? && values.Some? && tupleId >= 1 && |values.value| != |schema.value.columns| ==>
      r == Failure(SizeMismatch)
    ensures r.Success? ==> r.value.tid == tupleId && r.value.schema == schema.value
                           && r.value.values == values.value
  {
    if schema.None? || values.None? || tupleId < 1 then Failure(NullOrInvalidId)
    else if |schema.value.columns| != |values.value| then Failure(SizeMismatch)
    else Success(Tuple(tupleId, schema.value, values.value))
  }

  /** get(Column): the value stored at the column's position; absent for a column the schema lacks. */
  function Get(t: Tuple, key: Column): (r: Option<Value>)
    ensures r.Some? <==> key in t.schema.columns
    ensures forall k :: 0 <= k < |t.schema.columns| && t.schema.columns[k] == key ==> r == Some(t.values[k])
  {
    match IndexOf(t.schema.columns, key)
    case None => None
    case Some(k) => Some(t.values[k])
  }

  /** get(String): the column of that name in the tuple's own table. */
  function GetByName(t: Tuple, attribute: string): (r: Option<Value>)
    ensures r.Some? <==> Column(t.TableName(), attribute) in t.schema.columns
    ensures forall k :: 0 <= k < |t.schema.columns| && t.schema.columns[k] == Column(t.TableName(), attribute) ==> r == Some(t.values[k])
  {
    Get(t, Column(t.TableName(), attribute))
  }

  /** Why reading a value as text fails: the schema lacks the column, or the value is not text. */
  datatype AccessError = UnknownColumn(column: Column) | NotAString(column: Column)

  /** getString(Column): the column's value cast to text. */
  function GetString(t: Tuple, key: Column): (r: Result<string, AccessError>)
    ensures r.Success? <==> exists s :: Get(t, key) == Some(Str(s))
    ensures r.Success? ==> Get(t, key) == Some(Str(r.value))
    ensures r == Failure(UnknownColumn(key)) <==> key !in t.schema.columns
    ensures r.Failure? && key in t.schema.columns ==> r == Failure(NotAString(key))
  {
    match Get(t, key)
    case None => Failure(UnknownColumn(key))
    case Some(Str(s)) => Success(s)
    case Some(Num(_)) => Failure(NotAString(key))
  }

  /** getString(String): the text of the column of that name in the tuple's own table. */
  function GetStringByName(t: Tuple, attribute: string): (r: Result<string, AccessError>)
    ensures r.Success? <==> exists s :: GetByName(t, attribute) == Some(Str(s))
    ensures r.Success? ==> GetByName(t, attribute) == Some(Str(r.value))
    ensures r.Failure? && GetByName(t, attribute).Some? ==> r == Failure(NotAString(Column(t.TableName(), attribute)))
    ensures r == Failure(UnknownColumn(Column(t.TableName(), attribute))) <==> GetByName(t, attribute).None?
  {
    GetString(t, Column(t.TableName(), attribute))
  }

  /** getCell(Column): a cell carrying the column, the tuple's id and the column's value. */
  function GetCell(t: Tuple, key: Column): (r: Option<Cell>)
    ensures r.Some? <==> key in t.schema.columns
    ensures r.Some? ==> r.value.column == key && r.value.tid == t.tid && Get(t, key) == Some(r.value.value)
  {
    match Get(t, key)
    case None => None
    case Some(v) => Some(Cell(key, t.tid, v))
  }

  /** getCell(String): the cell of the column of that name in the tuple's own table. */
  function GetCellByName(t: Tuple, attribute: string): (r: Option<Cell>)
    ensures r.Some? <==> GetByName(t, attribute).Some?
    ensures r.Some? ==> r.value == Cell(Column(t.TableName(), attribute), t.tid, GetByName(t, attribute).value)
  {
    GetCell(t, Column(t.TableName(), attribute))
  }

  // ---------------------------------------------------------------------
  // getCells
  // ---------------------------------------------------------------------

  /** The cells of the first n columns, skipping every column named "tid". */
  function CellsUpTo(t: Tuple, n: nat): seq<Cell>
    requires n <= |t.schema.columns|
  {
    if n == 0 then []
    else
      var c := t.schema.columns[n - 1];
      CellsUpTo(t, n - 1) + (if c.name == "tid" then [] else [Cell(c, t.tid, t.values[n - 1])])
  }

  /** Every cell of the tuple except those of columns named "tid". */
  function CellsOf(t: Tuple): seq<Cell> {
    CellsUpTo(t, |t.schema.columns|)
  }

  lemma {:induction false} CellsUpToMembers(t: Tuple, n: nat)
    requires n <= |t.schema.columns|
    ensures forall c: Cell :: c in CellsUpTo(t, n) <==>
      exists k :: 0 <= k < n && t.schema.columns[k].name != "tid"
                  && c == Cell(t.schema.columns[k], t.tid, t.values[k])
    ensures forall i, j :: 0 <= i < j < |CellsUpTo(t, n)| ==> CellsUpTo(t, n)[i].column != CellsUpTo(t, n)[j].column
    ensures forall c :: c in CellsUpTo(t, n) ==> c.column in t.schema.columns[..n]
  {
    if n > 0 {
      CellsUpToMembers(t, n - 1);
      assert t.schema.columns[..n] == t.schema.columns[..n - 1] + [t.schema.columns[n - 1]];
      assert t.schema.columns[n - 1] !in t.schema.columns[..n - 1];
    }
  }

  /**
   * getCells yields exactly one cell per column not named "tid", each carrying
   * this tuple's id and the value get returns for that column; no column twice.
   */
  lemma CellsOfSpec(t: Tuple)
    ensures forall c: Cell :: c in CellsOf(t) <==>
      c.column in t.schema.columns && c.column.name != "tid" && c.tid == t.tid && Get(t, c.column) == Some(c.value)
    ensures forall i, j :: 0 <= i < j < |CellsOf(t)| ==> CellsOf(t)[i].column != CellsOf(t)[j].column
  {
    CellsUpToMembers(t, |t.schema.columns|);
    assert t.schema.columns[..|t.schema.columns|] == t.schema.columns;
    forall c: Cell | c.column in t.schema.columns && c.column.name != "tid" && c.tid == t.tid && Get(t, c.column) == Some(c.value)
      ensures c in CellsOf(t)
    {
      var k :| 0 <= k < |t.schema.columns| && t.schema.columns[k] == c.column;
      assert c == Cell(t.schema.columns[k], t.tid, t.values[k]);
    }
  }

  /** getCells: walks the schema's columns, skipping "tid", and collects one cell per column. */
  method GetCells(t: Tuple) returns (cells: seq<Cell>)
    ensures cells == CellsOf(t)
  {
    var columns := t.schema.columns;
    cells := [];
    var i := 0;
    while i < |columns|
      invariant 0 <= i <= |columns|
      invariant cells == CellsUpTo(t, i)
    {
      var column := columns[i];
      if column.name != "tid" {
        IndexOfDistinct(t.schema, i);
        var cell := Cell(column, t.tid, Get(t, column).value);
        cells := cells + [cell];
      }
      i := i + 1;
    }
  }

  // ---------------------------------------------------------------------
  // isFromTable
  // ---------------------------------------------------------------------

  /** The lower-cased table names a tuple answers to: its own, and the one behind a "csv_" prefix. */
  function AcceptedNames(t: Tuple): set<string> {
    var own := t.TableName();
    {ToLower(own)} + (if StartsWith(own, "csv_") then {ToLower(own[4..])} else {})
  }

  /** isFromTable: the own table name, or the name behind a "csv_" prefix, equals `tableName` ignoring case. */
  function IsFromTable(t: Tuple, tableName: string): (b: bool)
    ensures b <==> ToLower(tableName) in AcceptedNames(t)
  {
    var own := t.TableName();
    EqualsIgnoreCase(own, tableName) || (StartsWith(own, "csv_") && EqualsIgnoreCase(own[4..], tableName))
  }

  /** A tuple belongs to its own table under any spelling that differs only in case. */
  lemma IsFromOwnTable(t: Tuple, tableName: string)
    requires ToLower(tableName) == ToLower(t.TableName())
    ensures IsFromTable(t, tableName)
  {
  }

  /** A tuple of table "csv_<name>" belongs to table <name>, under any case. */
  lemma {:induction false} IsFromCsvAlias(t: Tuple, name: string, tableName: string)
    requires t.TableName() == "csv_" + name
    requires ToLower(tableName) == ToLower(name)
    ensures IsFromTable(t, tableName)
  {
    assert StartsWith(t.TableName(), "csv_");
    assert t.TableName()[4..] == name;
  }

  /** Without the "csv_" prefix only the own name, ignoring case, is accepted. */
  lemma IsFromTableOnlyOwnName(t: Tuple, tableName: string)
    requires !StartsWith(t.TableName(), "csv_")
    ensures IsFromTable(t, tableName) <==> ToLower(tableName) == ToLower(t.TableName())
  {
  }

  /** The answer does not depend on the letter case of the argument. */
  lemma {:induction false} IsFromTableIgnoresCase(t: Tuple, tableName: string)
    ensures IsFromTable(t, tableName) == IsFromTable(t, ToLower(tableName))
  {
    ToLowerIdempotent(tableName);
  }

  // ---------------------------------------------------------------------
  // hasSameValue
  // ---------------------------------------------------------------------

  /** Position i is the schema's row-identifier column. */
  predicate IsTidIndex(s: Schema, i: nat) {
    s.tidIndex == Some(i)
  }

  /** Both tuples agree on the row-identifier column of t's schema. */
  predicate TidsMatch(t: Tuple, u: Tuple)
    requires |t.values| == |u.values|
  {
    t.schema.tidIndex.Some? && t.values[t.schema.tidIndex.value] == u.values[t.schema.tidIndex.value]
  }

  /** Both tuples agree on every position except t's row-identifier column. */
  predicate AgreeOffTid(t: Tuple, u: Tuple)
    requires |t.values| == |u.values|
  {
    forall i :: 0 <= i < |t.values| && !IsTidIndex(t.schema, i) ==> t.values[i] == u.values[i]
  }

  /**
   * hasSameValue, as a relation: false against null and against a tuple with a
   * different number of values; otherwise equal row identifiers suffice, and
   * failing that every other position must agree.
   */
  predicate SameValue(t: Tuple, other: Option<Tuple>) {
    match other
    case None => false
    case Some(u) => |t.values| == |u.values| && (TidsMatch(t, u) || AgreeOffTid(t, u))
  }

  /** hasSameValue: identity shortcut, length check, tid shortcut, then a scan that skips the tid position. */
  method HasSameValue(t: Tuple, other: Option<Tuple>) returns (same: bool)
    ensures same == SameValue(t, other)
  {
    if other.None? {
      return false;
    }
    var u := other.value;
    if t == u || t.values == u.values {
      return true;
    }
    if |t.values| != |u.values| {
      return false;
    }
    var tidIndex := t.schema.tidIndex;
    if tidIndex.Some? && t.values[tidIndex.value] == u.values[tidIndex.value] {
      return true;
    }
    var i := 0;
    while i < |t.values|
      invariant 0 <= i <= |t.values|
      invariant forall k :: 0 <= k < i && !IsTidIndex(t.schema, k) ==> t.values[k] == u.values[k]
    {
      if tidIndex.Some? && i == tidIndex.value {
        i := i + 1;
        continue;
      }
      if t.values[i] != u.values[i] {
        return false;
      }
      i := i + 1;
    }
    return true;
  }

  /** hasSameValue(null) is false and hasSameValue(self) is true. */
  lemma SameValueNullAndSelf(t: Tuple)
    ensures !SameValue(t, None)
    ensures SameValue(t, Some(t))
  {
  }

  /** Tuples with different numbers of values are never same-valued. */
  lemma SameValueNeedsEqualLength(t: Tuple, u: Tuple)
    requires |t.values| != |u.values|
    ensures !SameValue(t, Some(u))
  {
  }

  /** Equal row identifiers make two tuples same-valued whatever their other values. */
  lemma SameValueTidShortCircuit(t: Tuple, u: Tuple)
    requires |t.values| == |u.values|
    requires t.schema.tidIndex.Some? && t.values[t.schema.tidIndex.value] == u.values[t.schema.tidIndex.value]
    ensures SameValue(t, Some(u))
  {
  }

  /** Without a row-identifier column, same-valued means equal values. */
  lemma {:induction false} SameValueWithoutTid(t: Tuple, u: Tuple)
    requires t.schema.tidIndex.None?
    ensures SameValue(t, Some(u)) <==> t.values == u.values
  {
    if SameValue(t, Some(u)) {
      assert forall i :: 0 <= i < |t.values| ==> !IsTidIndex(t.schema, i);
    }
  }

  /** The relation is symmetric for tuples whose schemas place the row identifier alike. */
  lemma SameValueSymmetric(t: Tuple, u: Tuple)
    requires t.schema.tidIndex == u.schema.tidIndex
    ensures SameValue(t, Some(u)) == SameValue(u, Some(t))
  {
  }

  /**
   * The relation is not transitive: a tuple can match a second on the row
   * identifier and the second match a third on the other columns while the
   * first and the third share nothing.
   */
  lemma {:induction false} SameValueNotTransitive()
    ensures exists a: Tuple, b: Tuple, c: Tuple ::
      SameValue(a, Some(b)) && SameValue(b, Some(c)) && !SameValue(a, Some(c))
  {
    var s: Schema := Schema("t", [Column("t", "tid"), Column("t", "city")], Some(0));
    var a: Tuple := Tuple(1, s, [Num(1), Str("x")]);
    var b: Tuple := Tuple(2, s, [Num(1), Str("y")]);
    var c: Tuple := Tuple(3, s, [Num(3), Str("y")]);
    assert SameValue(a, Some(b));
    assert SameValue(b, Some(c));
    assert !AgreeOffTid(a, c) by {
      assert a.values[1] != c.values[1] && !IsTidIndex(s, 1);
    }
  }
}
