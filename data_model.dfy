/**
 * The row and defect data model: values, columns, schemas, tuples, cells,
 * tuple pairs and fixes.
 */
module DataModel {
  import opened Wrappers

  /** A column value: the model distinguishes text from numbers (the tid column is numeric). */
  datatype Value = Str(s: string) | Num(n: int)

  /** A column is identified by its table name and its column name. */
  datatype Column = Column(table: string, name: string)

  /** The qualified name "table.column" that identifies a column in rule descriptions. */
  function FullName(c: Column): string {
    c.table + "." + c.name
  }

  datatype SchemaRec = Schema(tableName: string, columns: seq<Column>, tidIndex: Option<nat>) {
    /** Columns are unique, and the row-identifier index, when present, names one of them. */
    predicate Valid() {
      && (forall i, j :: 0 <= i < j < |columns| ==> columns[i] != columns[j])
      && (tidIndex.Some? ==> tidIndex.value < |columns|)
    }
  }

  /** An ordered set of unique columns with an optional row-identifier column. */
  type Schema = s: SchemaRec | s.Valid() witness Schema("", [], None)

  /** Schema.get: the position of a column, absent when the schema does not hold it. */
  function IndexOf(columns: seq<Column>, c: Column): (r: Option<nat>)
    ensures r.Some? ==> r.value < |columns| && columns[r.value] == c && c !in columns[..r.value]
    ensures r.None? <==> c !in columns
  {
    if columns == [] then None
    else if columns[0] == c then Some(0)
    else
      match IndexOf(columns[1..], c)
      case None => None
      case Some(k) =>
        assert columns[..k + 1] == [columns[0]] + columns[1..][..k];
        Some(k + 1)
  }

  lemma IndexOfDistinct(s: Schema, k: nat)
    requires k < |s.columns|
    ensures IndexOf(s.columns, s.columns[k]) == Some(k)
  {
  }

  datatype TupleRec = Tuple(tid: int, schema: Schema, values: seq<Value>) {
    /** The Tuple constructor's checks: a positive id and one value per schema column. */
    predicate Valid() {
      tid >= 1 && |values| == |schema.columns|
    }

    function TableName(): string {
      schema.tableName
    }
  }

  /** An immutable row: id, schema and one value per column. */
  type Tuple = t: TupleRec | t.Valid() witness Tuple(1, Schema("", [], None), [])

  /** One addressable value: its column, the id of its tuple, and the value. */
  datatype Cell = Cell(column: Column, tid: int, value: Value)

  /** Two tuples handed together to a pair rule. */
  datatype TuplePair = TuplePair(left: Tuple, right: Tuple)

  /** What a fix assigns to its left cell: another cell's value, or a literal. */
  datatype FixTarget = CellTarget(cell: Cell) | Literal(text: string)

  /** A candidate repair of one violation: change `left` to match `right`. */
  datatype Fix = Fix(vid: int, left: Cell, right: FixTarget)
}
