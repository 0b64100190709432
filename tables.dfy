/**
 * Table: an ordered sequence of tuples, with the two primitives the pair
 * rule uses to bound its comparisons: groupOn (blocking) and orderBy.
 */
module Tables {
  import opened Wrappers
  import opened DataModel
  import opened TupleModel

  type Table = seq<Tuple>

  /** The tuple's values on the given columns, in order (absent for a column its schema lacks). */
  function Key(t: Tuple, columns: seq<Column>): (k: seq<Option<Value>>)
    ensures |k| == |columns|
    ensures forall i :: 0 <= i < |columns| ==> k[i] == Get(t, columns[i])
  {
    seq(|columns|, i requires 0 <= i < |columns| => Get(t, columns[i]))
  }

  // ---------------------------------------------------------------------
  // Ordering used by orderBy: ascending, lexicographic over the columns'
  // values, ties broken by tuple id
  // ---------------------------------------------------------------------

  function CmpInt(a: int, b: int): int {
    if a < b then -1 else if a > b then 1 else 0
  }

  function CmpString(a: string, b: string): int {
    if a == [] then (if b == [] then 0 else -1)
    else if b == [] then 1
    else if a[0] != b[0] then CmpInt(a[0] as int, b[0] as int)
    else CmpString(a[1..], b[1..])
  }

  /** Numbers sort before text; numbers by value, text by character codes. */
  function CmpValue(a: Value, b: Value): int {
    match (a, b)
    case (Num(x), Num(y)) => CmpInt(x, y)
    case (Num(_), Str(_)) => -1
    case (Str(_), Num(_)) => 1
    case (Str(x), Str(y)) => CmpString(x, y)
  }

  /** An absent value sorts first. */
  function CmpOption(a: Option<Value>, b: Option<Value>): int {
    match (a, b)
    case (None, None) => 0
    case (None, Some(_)) => -1
    case (Some(_), None) => 1
    case (Some(x), Some(y)) => CmpValue(x, y)
  }

  function CmpKey(a: seq<Option<Value>>, b: seq<Option<Value>>): int {
    if a == [] then (if b == [] then 0 else -1)
    else if b == [] then 1
    else if CmpOption(a[0], b[0]) != 0 then CmpOption(a[0], b[0])
    else CmpKey(a[1..], b[1..])
  }

  function CmpTuple(x: Tuple, y: Tuple, columns: seq<Column>): int {
    var c := CmpKey(Key(x, columns), Key(y, columns));
    if c != 0 then c else CmpInt(x.tid, y.tid)
  }

  predicate OrderedBefore(x: Tuple, y: Tuple, columns: seq<Column>) {
    CmpTuple(x, y, columns) <= 0
  }

  lemma {:induction false} CmpStringAntisymmetric(a: string, b: string)
    ensures CmpString(a, b) == -CmpString(b, a)
  {
    if a != [] && b != [] && a[0] == b[0] {
      CmpStringAntisymmetric(a[1..], b[1..]);
    }
  }

  lemma {:induction false} CmpStringReflexive(a: string)
    ensures CmpString(a, a) == 0
  {
    if a != [] {
      CmpStringReflexive(a[1..]);
    }
  }

  lemma CmpValueAntisymmetric(a: Value, b: Value)
    ensures CmpValue(a, b) == -CmpValue(b, a)
    ensures CmpValue(a, a) == 0
  {
    if a.Str? && b.Str? {
      CmpStringAntisymmetric(a.s, b.s);
    }
    if a.Str? {
      CmpStringReflexive(a.s);
    }
  }

  lemma CmpOptionAntisymmetric(a: Option<Value>, b: Option<Value>)
    ensures CmpOption(a, b) == -CmpOption(b, a)
    ensures CmpOption(a, a) == 0
  {
    if a.Some? {
      CmpValueAntisymmetric(a.value, a.value);
      if b.Some? {
        CmpValueAntisymmetric(a.value, b.value);
      }
    }
  }

  lemma {:induction false} CmpKeyAntisymmetric(a: seq<Option<Value>>, b: seq<Option<Value>>)
    ensures CmpKey(a, b) == -CmpKey(b, a)
    ensures CmpKey(a, a) == 0
  {
    if a != [] {
      CmpOptionAntisymmetric(a[0], a[0]);
      CmpKeyAntisymmetric(a[1..], a[1..]);
      if b != [] {
        CmpOptionAntisymmetric(a[0], b[0]);
        CmpKeyAntisymmetric(a[1..], b[1..]);
      }
    }
  }

  /** Any two tuples are ordered one way or the other. */
  lemma OrderedBeforeTotal(x: Tuple, y: Tuple, columns: seq<Column>)
    ensures OrderedBefore(x, y, columns) || OrderedBefore(y, x, columns)
  {
    CmpKeyAntisymmetric(Key(x, columns), Key(y, columns));
  }

  /** Every tuple comes no later than its successor. */
  predicate Sorted(ts: Table, columns: seq<Column>) {
    forall i :: 0 < i < |ts| ==> OrderedBefore(ts[i - 1], ts[i], columns)
  }

  /** A tuple ordered before the head of a sorted table can be put in front of it. */
  lemma SortedCons(y: Tuple, rest: Table, columns: seq<Column>)
    requires Sorted(rest, columns)
    requires rest != [] ==> OrderedBefore(y, rest[0], columns)
    ensures Sorted([y] + rest, columns)
  {
    var r := [y] + rest;
    forall i | 0 < i < |r|
      ensures OrderedBefore(r[i - 1], r[i], columns)
    {
      if i > 1 {
        assert r[i - 1] == rest[i - 2] && r[i] == rest[i - 1];
      }
    }
  }

  function Insert(x: Tuple, ts: Table, columns: seq<Column>): (r: Table)
    requires Sorted(ts, columns)
    ensures Sorted(r, columns)
    ensures multiset(r) == multiset(ts) + multiset{x}
    ensures |r| == |ts| + 1
    ensures r[0] == x || (ts != [] && r[0] == ts[0])
  {
    if ts == [] then [x]
    else if OrderedBefore(x, ts[0], columns) then
      SortedCons(x, ts, columns);
      [x] + ts
    else
      OrderedBeforeTotal(x, ts[0], columns);
      var tail := ts[1..];
      assert Sorted(tail, columns) by {
        forall i | 0 < i < |tail|
          ensures OrderedBefore(tail[i - 1], tail[i], columns)
        {
          assert tail[i - 1] == ts[i] && tail[i] == ts[i + 1];
        }
      }
      var rest := Insert(x, tail, columns);
      assert ts == [ts[0]] + tail;
      assert OrderedBefore(ts[0], rest[0], columns);
      SortedCons(ts[0], rest, columns);
      [ts[0]] + rest
  }

  /**
   * orderBy: the table rearranged into ascending order of the columns' values,
   * ties broken by tuple id.
   */
  function OrderBy(ts: Table, columns: seq<Column>): (r: Table)
    ensures Sorted(r, columns)
    ensures multiset(r) == multiset(ts)
    ensures |r| == |ts|
  {
    if ts == [] then []
    else
      assert ts == [ts[0]] + ts[1..];
      Insert(ts[0], OrderBy(ts[1..], columns), columns)
  }

  /** orderBy is stable on equal keys: neighbours with equal column values are in tuple-id order. */
  lemma OrderByTiesByTid(ts: Table, columns: seq<Column>, i: nat)
    requires 0 < i < |ts|
    requires Key(OrderBy(ts, columns)[i - 1], columns) == Key(OrderBy(ts, columns)[i], columns)
    ensures OrderBy(ts, columns)[i - 1].tid <= OrderBy(ts, columns)[i].tid
  {
    var r := OrderBy(ts, columns);
    CmpKeyAntisymmetric(Key(r[i - 1], columns), Key(r[i], columns));
  }

  // ---------------------------------------------------------------------
  // groupOn
  // ---------------------------------------------------------------------

  function Flatten<T>(groups: seq<seq<T>>): seq<T> {
    if groups == [] then [] else groups[0] + Flatten(groups[1..])
  }

  /** An element of the flattening lies in one of the groups. */
  lemma {:induction false} FlattenMember<T>(groups: seq<seq<T>>, x: T)
    requires x in Flatten(groups)
    ensures exists i :: 0 <= i < |groups| && x in groups[i]
  {
    if x !in groups[0] {
      FlattenMember(groups[1..], x);
      var i :| 0 <= i < |groups[1..]| && x in groups[1..][i];
      assert x in groups[i + 1];
    }
  }

  /** Every member of every group occurs in the flattening. */
  lemma {:induction false} FlattenHolds<T>(groups: seq<seq<T>>, i: nat, k: nat)
    requires i < |groups| && k < |groups[i]|
    ensures groups[i][k] in Flatten(groups)
  {
    if i > 0 {
      FlattenHolds(groups[1..], i - 1, k);
    }
  }

  predicate NonEmptyGroups<T>(groups: seq<seq<T>>) {
    forall i :: 0 <= i < |groups| ==> groups[i] != []
  }

  /** Every member of a group has the key of the group's first member. */
  predicate UniformKeys<T(==), K(==)>(groups: seq<seq<T>>, key: T -> K)
    requires NonEmptyGroups(groups)
  {
    forall i, x :: 0 <= i < |groups| && x in groups[i] ==> key(x) == key(groups[i][0])
  }

  /** No two groups share a key. */
  predicate DistinctKeys<T, K(==)>(groups: seq<seq<T>>, key: T -> K)
    requires NonEmptyGroups(groups)
  {
    forall i, j :: 0 <= i < j < |groups| ==> key(groups[i][0]) != key(groups[j][0])
  }

  /** Groups are non-empty, uniform in key, and no two groups share a key. */
  predicate Grouped<T(==), K(==)>(groups: seq<seq<T>>, key: T -> K) {
    NonEmptyGroups(groups) && UniformKeys(groups, key) && DistinctKeys(groups, key)
  }

  /**
   * Puts x into the first group whose key is x's, or opens a new last group
   * for it when there is none.
   */
  function AddToGroup<T(==), K(==)>(groups: seq<seq<T>>, x: T, key: T -> K): (r: seq<seq<T>>)
    requires NonEmptyGroups(groups)
    ensures |r| == |groups| || |r| == |groups| + 1
    ensures forall i :: 0 <= i < |groups| ==>
      r[i] == groups[i] || (r[i] == groups[i] + [x] && key(groups[i][0]) == key(x))
    ensures |r| == |groups| + 1 <==> forall i :: 0 <= i < |groups| ==> key(groups[i][0]) != key(x)
    ensures |r| == |groups| + 1 ==> r[|groups|] == [x]
  {
    if groups == [] then [[x]]
    else if key(groups[0][0]) == key(x) then
      [groups[0] + [x]] + groups[1..]
    else
      [groups[0]] + AddToGroup(groups[1..], x, key)
  }

  lemma {:induction false} AddToGroupCount<T, K>(groups: seq<seq<T>>, x: T, key: T -> K)
    requires NonEmptyGroups(groups)
    ensures multiset(Flatten(AddToGroup(groups, x, key))) == multiset(Flatten(groups)) + multiset{x}
  {
    if groups != [] {
      var r := AddToGroup(groups, x, key);
      assert Flatten(groups) == groups[0] + Flatten(groups[1..]);
      assert Flatten(r) == r[0] + Flatten(r[1..]);
      if key(groups[0][0]) == key(x) {
        assert r[1..] == groups[1..];
      } else {
        AddToGroupCount(groups[1..], x, key);
        assert r[1..] == AddToGroup(groups[1..], x, key);
      }
    }
  }

  lemma AddToGroupGrouped<T, K>(groups: seq<seq<T>>, x: T, key: T -> K)
    requires Grouped(groups, key)
    ensures Grouped(AddToGroup(groups, x, key), key)
  {
    var r := AddToGroup(groups, x, key);
    var n := |groups|;
    forall i | 0 <= i < |r|
      ensures r[i] != [] && (i < n ==> r[i][0] == groups[i][0])
    {
      if i < n {
        assert r[i] == groups[i] || r[i] == groups[i] + [x];
      }
    }
    assert NonEmptyGroups(r);
    forall i, y | 0 <= i < |r| && y in r[i]
      ensures key(y) == key(r[i][0])
    {
      if i < n && y !in groups[i] {
        assert y == x;
      }
    }
    forall i, j | 0 <= i < j < |r|
      ensures key(r[i][0]) != key(r[j][0])
    {
      if j == n {
        assert key(groups[i][0]) != key(x);
      }
    }
  }

  /** Partitions a sequence by key; groups appear in the order of their first member. */
  function GroupBy<T(==), K(==)>(ts: seq<T>, key: T -> K): seq<seq<T>>
    decreases |ts|
  {
    if ts == [] then []
    else
      var groups := GroupBy(ts[..|ts| - 1], key);
      if NonEmptyGroups(groups) then AddToGroup(groups, ts[|ts| - 1], key) else groups
  }

  /** GroupBy's groups are non-empty, uniform in key, and of distinct keys. */
  lemma {:induction false} GroupByGrouped<T, K>(ts: seq<T>, key: T -> K)
    ensures Grouped(GroupBy(ts, key), key)
    decreases |ts|
  {
    if ts != [] {
      var pre := ts[..|ts| - 1];
      var x := ts[|ts| - 1];
      GroupByGrouped(pre, key);
      var groups := GroupBy(pre, key);
      assert GroupBy(ts, key) == AddToGroup(groups, x, key);
      AddToGroupGrouped(groups, x, key);
    }
  }

  /** GroupBy loses and repeats nothing. */
  lemma {:induction false} GroupByCount<T, K>(ts: seq<T>, key: T -> K)
    ensures multiset(Flatten(GroupBy(ts, key))) == multiset(ts)
    decreases |ts|
  {
    if ts != [] {
      var pre := ts[..|ts| - 1];
      var x := ts[|ts| - 1];
      GroupByCount(pre, key);
      GroupByGrouped(pre, key);
      var groups := GroupBy(pre, key);
      assert GroupBy(ts, key) == AddToGroup(groups, x, key);
      AddToGroupCount(groups, x, key);
      calc {
        multiset(Flatten(GroupBy(ts, key)));
        multiset(Flatten(groups)) + multiset{x};
        multiset(pre) + multiset{x};
        { assert ts == pre + [x]; }
        multiset(ts);
      }
    }
  }

  /** GroupBy partitions: it loses and repeats nothing, and its groups are well formed. */
  lemma GroupBySpec<T, K>(ts: seq<T>, key: T -> K)
    ensures Grouped(GroupBy(ts, key), key)
    ensures multiset(Flatten(GroupBy(ts, key))) == multiset(ts)
  {
    GroupByGrouped(ts, key);
    GroupByCount(ts, key);
  }

  /** A sequence whose elements all share one key forms a single group, in order. */
  lemma {:induction false} GroupByUniform<T, K>(ts: seq<T>, key: T -> K)
    requires ts != []
    requires forall i :: 0 <= i < |ts| ==> key(ts[i]) == key(ts[0])
    ensures GroupBy(ts, key) == [ts]
  {
    var pre := ts[..|ts| - 1];
    if pre == [] {
      assert ts == [ts[0]];
    } else {
      GroupByUniform(pre, key);
      assert GroupBy(pre, key) == [pre];
      assert key(pre[0]) == key(ts[|ts| - 1]);
      assert AddToGroup([pre], ts[|ts| - 1], key) == [pre + [ts[|ts| - 1]]];
      assert pre + [ts[|ts| - 1]] == ts;
    }
  }

  /**
   * groupOn: partitions the table by the values of the columns. No tuple is
   * lost or repeated, tuples of a group agree on the columns, and tuples of
   * different groups do not.
   */
  function GroupOn(ts: Table, columns: seq<Column>): (r: seq<Table>)
    ensures multiset(Flatten(r)) == multiset(ts)
    ensures NonEmptyGroups(r)
    ensures forall i, x :: 0 <= i < |r| && x in r[i] ==> Key(x, columns) == Key(r[i][0], columns)
    ensures forall i, j :: 0 <= i < j < |r| ==> Key(r[i][0], columns) != Key(r[j][0], columns)
  {
    GroupBySpec(ts, t => Key(t, columns));
    GroupBy(ts, t => Key(t, columns))
  }

  /** A table whose tuples all agree on the columns is a single group. */
  lemma GroupOnUniform(ts: Table, columns: seq<Column>)
    requires ts != []
    requires forall i :: 0 <= i < |ts| ==> Key(ts[i], columns) == Key(ts[0], columns)
    ensures GroupOn(ts, columns) == [ts]
  {
    GroupByUniform(ts, t => Key(t, columns));
  }

  /** Tuples with equal values on the columns land in the same group. */
  lemma SameKeySameGroup(ts: Table, columns: seq<Column>, i: nat, j: nat, x: Tuple, y: Tuple)
    requires i < |GroupOn(ts, columns)| && j < |GroupOn(ts, columns)|
    requires x in GroupOn(ts, columns)[i] && y in GroupOn(ts, columns)[j]
    requires Key(x, columns) == Key(y, columns)
    ensures i == j
  {
  }
}
