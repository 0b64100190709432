/**
 * FDRuleBuilder: turns a one-line functional dependency "lhs | rhs" into the
 * left- and right-hand-side column names, and derives the generated rule's
 * class name.
 */
module FdRuleBuilder {
  import opened Wrappers
  import opened JavaStrings
  import opened DataModel

  /** Why parse rejects a rule; the rule text is the line being parsed. */
  datatype FdError =
    | InvalidFdContent
    | InvalidRuleDescription(line: string)
    | DuplicatedColumn(column: string)
    | UnknownColumn(column: string)
    | MissingTableName
    | MissingSchema

  /** A column token: the piece trimmed and lower-cased. */
  function Normalize(piece: string): string {
    ToLower(Trim(piece))
  }

  /** A token that is not already a full column name is qualified with the default table. */
  function Qualify(token: string, defaultTable: string, isValidColumnName: string -> bool): (name: string)
    ensures isValidColumnName(token) ==> name == token
    ensures !isValidColumnName(token) ==> name == defaultTable + "." + token
  {
    if isValidColumnName(token) then token else defaultTable + "." + token
  }

  /** The full names of the schema's columns. */
  function ColumnNames(s: Schema): set<string> {
    set c | c in s.columns :: FullName(c)
  }

  /** The pieces of one side, each trimmed and lower-cased. */
  function Tokens(pieces: seq<string>): (tokens: seq<string>)
    ensures |tokens| == |pieces|
    ensures forall k :: 0 <= k < |pieces| ==> tokens[k] == Normalize(pieces[k])
  {
    seq(|pieces|, k requires 0 <= k < |pieces| => Normalize(pieces[k]))
  }

  /** What one side of the rule is checked against. */
  datatype SideContext = SideContext(line: string, defaultTable: string, known: set<string>, isValidColumnName: string -> bool)

  function QualifiedToken(ctx: SideContext, token: string): string {
    Qualify(token, ctx.defaultTable, ctx.isValidColumnName)
  }

  /** One iteration of a side's loop: empty token, then duplicate, then unknown column. */
  function AddToken(ctx: SideContext, names: set<string>, token: string): (r: Result<set<string>, FdError>)
    ensures r.Success? <==> |token| > 0 && QualifiedToken(ctx, token) !in names && QualifiedToken(ctx, token) in ctx.known
    ensures r.Success? ==> r.value == names + {QualifiedToken(ctx, token)}
  {
    if |token| == 0 then Failure(InvalidRuleDescription(ctx.line))
    else
      var column := Qualify(token, ctx.defaultTable, ctx.isValidColumnName);
      if column in names then Failure(DuplicatedColumn(column))
      else if column !in ctx.known then Failure(UnknownColumn(column))
      else Success(names + {column})
  }

  /** The names collected from the first n tokens, or the first rejected token's error. */
  function ParseSide(ctx: SideContext, tokens: seq<string>, n: nat): Result<set<string>, FdError>
    requires n <= |tokens|
  {
    if n == 0 then Success({})
    else
      match ParseSide(ctx, tokens, n - 1)
      case Failure(e) => Failure(e)
      case Success(names) => AddToken(ctx, names, tokens[n - 1])
  }

  /**
   * parse: exactly one line; trimmed and split at '|' into exactly two parts;
   * a default table and a schema must exist; then the left part split at ','
   * and the trimmed right part split at ',', each piece checked in turn.
   */
  function ParseFd(value: Option<seq<string>>, tableNames: seq<string>, schemas: seq<Schema>,
                   isValidColumnName: string -> bool): (r: Result<(set<string>, set<string>), FdError>)
    ensures value.None? || |value.value| != 1 ==> r == Failure(InvalidFdContent)
    ensures r.Success? ==>
      && value.Some? && |value.value| == 1 && |JavaSplit(Trim(value.value[0]), '|')| == 2
      && tableNames != [] && schemas != []
  {
    if value.None? || |value.value| != 1 then Failure(InvalidFdContent)
    else
      var line := value.value[0];
      var parts := JavaSplit(Trim(line), '|');
      if |parts| != 2 then Failure(InvalidRuleDescription(line))
      else if tableNames == [] then Failure(MissingTableName)
      else if schemas == [] then Failure(MissingSchema)
      else
        var ctx := SideContext(line, tableNames[0], ColumnNames(schemas[0]), isValidColumnName);
        var lhsTokens := Tokens(JavaSplit(parts[0], ','));
        var rhsTokens := Tokens(JavaSplit(Trim(parts[1]), ','));
        var lhs :- ParseSide(ctx, lhsTokens, |lhsTokens|);
        var rhs :- ParseSide(ctx, rhsTokens, |rhsTokens|);
        Success((lhs, rhs))
  }

  /** The qualified names of the first n tokens. */
  function NamesOf(ctx: SideContext, tokens: seq<string>, n: nat): set<string>
    requires n <= |tokens|
  {
    if n == 0 then {} else NamesOf(ctx, tokens, n - 1) + {QualifiedToken(ctx, tokens[n - 1])}
  }

  lemma {:induction false} NamesOfMembers(ctx: SideContext, tokens: seq<string>, n: nat, name: string)
    requires n <= |tokens|
    ensures name in NamesOf(ctx, tokens, n) <==> exists k :: 0 <= k < n && QualifiedToken(ctx, tokens[k]) == name
  {
    if n > 0 {
      NamesOfMembers(ctx, tokens, n - 1, name);
    }
  }

  /** Each of the first n tokens is non-empty and names a column of the schema once qualified. */
  predicate KnownTokens(ctx: SideContext, tokens: seq<string>, n: nat)
    requires n <= |tokens|
  {
    forall k :: 0 <= k < n ==> |tokens[k]| > 0 && QualifiedToken(ctx, tokens[k]) in ctx.known
  }

  /** No two of the first n tokens name the same column once qualified. */
  predicate DistinctTokens(ctx: SideContext, tokens: seq<string>, n: nat)
    requires n <= |tokens|
  {
    forall i, j :: 0 <= i < j < n ==> QualifiedToken(ctx, tokens[i]) != QualifiedToken(ctx, tokens[j])
  }

  lemma KnownTokensStep(ctx: SideContext, tokens: seq<string>, n: nat)
    requires 0 < n <= |tokens|
    ensures KnownTokens(ctx, tokens, n) <==>
      KnownTokens(ctx, tokens, n - 1) && |tokens[n - 1]| > 0 && QualifiedToken(ctx, tokens[n - 1]) in ctx.known
  {
  }

  lemma DistinctTokensStep(ctx: SideContext, tokens: seq<string>, n: nat)
    requires 0 < n <= |tokens|
    ensures DistinctTokens(ctx, tokens, n) <==>
      DistinctTokens(ctx, tokens, n - 1) && QualifiedToken(ctx, tokens[n - 1]) !in NamesOf(ctx, tokens, n - 1)
  {
    var name := QualifiedToken(ctx, tokens[n - 1]);
    NamesOfMembers(ctx, tokens, n - 1, name);
    if DistinctTokens(ctx, tokens, n) {
      forall k | 0 <= k < n - 1
        ensures QualifiedToken(ctx, tokens[k]) != name
      {
      }
    }
  }

  /**
   * A side parses exactly when every token is non-empty and names a column of
   * the schema once qualified, and no two tokens name the same column; the
   * result is then the names of all tokens, one per token.
   */
  lemma {:induction false} ParseSideSpec(ctx: SideContext, tokens: seq<string>, n: nat)
    requires n <= |tokens|
    ensures ParseSide(ctx, tokens, n).Success? <==> KnownTokens(ctx, tokens, n) && DistinctTokens(ctx, tokens, n)
    ensures ParseSide(ctx, tokens, n).Success? ==>
      ParseSide(ctx, tokens, n).value == NamesOf(ctx, tokens, n) && |NamesOf(ctx, tokens, n)| == n
  {
    if n > 0 {
      ParseSideSpec(ctx, tokens, n - 1);
      KnownTokensStep(ctx, tokens, n);
      DistinctTokensStep(ctx, tokens, n);
      var prev := ParseSide(ctx, tokens, n - 1);
      if prev.Success? {
        assert ParseSide(ctx, tokens, n) == AddToken(ctx, prev.value, tokens[n - 1]);
      }
    }
  }

  /**
   * A line that splits into two parts, with a default table and a schema,
   * parses exactly when both sides do: every token non-empty and known, no
   * column twice on a side. The sides are then the qualified names of their
   * tokens, and a rejected left side decides the error before the right side
   * is read.
   */
  lemma ParseFdSpec(line: string, tableNames: seq<string>, schemas: seq<Schema>, isValidColumnName: string -> bool)
    requires |JavaSplit(Trim(line), '|')| == 2 && tableNames != [] && schemas != []
    ensures var parts := JavaSplit(Trim(line), '|');
      var ctx := SideContext(line, tableNames[0], ColumnNames(schemas[0]), isValidColumnName);
      var left := Tokens(JavaSplit(parts[0], ','));
      var right := Tokens(JavaSplit(Trim(parts[1]), ','));
      var r := ParseFd(Some([line]), tableNames, schemas, isValidColumnName);
      && (r.Success? <==>
            KnownTokens(ctx, left, |left|) && DistinctTokens(ctx, left, |left|)
            && KnownTokens(ctx, right, |right|) && DistinctTokens(ctx, right, |right|))
      && (r.Success? ==> r.value == (NamesOf(ctx, left, |left|), NamesOf(ctx, right, |right|))
                         && |r.value.0| == |left| && |r.value.1| == |right|)
      && (ParseSide(ctx, left, |left|).Failure? ==> r == Failure(ParseSide(ctx, left, |left|).error))
  {
    var parts := JavaSplit(Trim(line), '|');
    var ctx := SideContext(line, tableNames[0], ColumnNames(schemas[0]), isValidColumnName);
    var left := Tokens(JavaSplit(parts[0], ','));
    var right := Tokens(JavaSplit(Trim(parts[1]), ','));
    ParseSideSpec(ctx, left, |left|);
    ParseSideSpec(ctx, right, |right|);
  }

  /** A trailing comma after a non-empty left part is ignored. */
  lemma LeftTrailingComma(ctx: SideContext, left: string)
    requires left != []
    ensures Tokens(JavaSplit(left + ",", ',')) == Tokens(JavaSplit(left, ','))
  {
    JavaSplitTrailingSeparator(left, ',');
  }

  /** A line that does not split into exactly two parts at '|' is rejected before any column is read. */
  lemma ParseNeedsTwoParts(line: string, tableNames: seq<string>, schemas: seq<Schema>, isValidColumnName: string -> bool)
    requires |JavaSplit(Trim(line), '|')| != 2
    ensures ParseFd(Some([line]), tableNames, schemas, isValidColumnName) == Failure(InvalidRuleDescription(line))
  {
  }

  /** A lower-case word: no trimming, no case folding and no separator affect it. */
  predicate LowerWord(word: string) {
    word != [] && forall i :: 0 <= i < |word| ==> 'a' <= word[i] <= 'z'
  }

  /** A lower-case word is its own single token. */
  lemma PlainWordTokens(word: string)
    requires LowerWord(word)
    ensures Tokens(JavaSplit(word, ',')) == [word]
  {
    TrimUntrimmed(word);
    assert ToLower(word) == word;
  }

  /** "l|r" for two lower-case words splits into the two words. */
  lemma SplitWordRule(l: string, r: string)
    requires LowerWord(l) && LowerWord(r)
    ensures JavaSplit(Trim(l + "|" + r), '|') == [l, r]
    ensures Trim(r) == r
  {
    var line := l + "|" + r;
    TrimUntrimmed(line);
    JavaSplitJoin([l, r], '|');
    assert Join([l, r], '|') == line;
    TrimUntrimmed(r);
  }

  /**
   * "l|r" for two lower-case words naming columns of the default table parses
   * into the one qualified column on each side.
   */
  lemma ParseSimpleRule(l: string, r: string, table: string, s: Schema, isValidColumnName: string -> bool)
    requires LowerWord(l) && LowerWord(r)
    requires !isValidColumnName(l) && !isValidColumnName(r)
    requires table + "." + l in ColumnNames(s) && table + "." + r in ColumnNames(s)
    ensures ParseFd(Some([l + "|" + r]), [table], [s], isValidColumnName) == Success(({table + "." + l}, {table + "." + r}))
  {
    SplitWordRule(l, r);
    PlainWordTokens(l);
    PlainWordTokens(r);
    var ctx := SideContext(l + "|" + r, table, ColumnNames(s), isValidColumnName);
    SingleTokenSide(ctx, l);
    SingleTokenSide(ctx, r);
  }

  lemma SingleTokenSide(ctx: SideContext, token: string)
    requires |token| > 0 && QualifiedToken(ctx, token) in ctx.known
    ensures ParseSide(ctx, [token], 1) == Success({QualifiedToken(ctx, token)})
  {
    assert ParseSide(ctx, [token], 0) == Success({});
    assert {} + {QualifiedToken(ctx, token)} == {QualifiedToken(ctx, token)};
  }

  // ---------------------------------------------------------------------
  // Rule name derivation
  // ---------------------------------------------------------------------

  /**
   * The generated class name: "DefaultFD" and the hash of the rule line when
   * the rule is unnamed (no line: none), else the original name without spaces.
   */
  function DerivedRuleName(ruleName: Option<string>, originalRuleName: string, value: seq<string>,
                           toHashCode: string -> string): (name: Option<string>)
    ensures (ruleName.None? || ruleName.value == "") && value != [] ==> name == Some("DefaultFD" + toHashCode(value[0]))
    ensures (ruleName.None? || ruleName.value == "") && value == [] ==> name.None?
    ensures ruleName.Some? && ruleName.value != "" ==> name.Some? && ' ' !in name.value && |name.value| <= |originalRuleName|
    ensures ruleName.Some? && ruleName.value != "" ==> name == Some(RemoveSpaces(originalRuleName))
  {
    if ruleName.None? || ruleName.value == "" then
      if value == [] then None else Some("DefaultFD" + toHashCode(value[0]))
    else
      Some(RemoveSpaces(originalRuleName))
  }

  /** A named rule keeps a name without spaces unchanged: deriving twice changes nothing. */
  lemma DerivedRuleNameStable(originalRuleName: string, value: seq<string>, toHashCode: string -> string)
    requires originalRuleName != "" && ' ' !in originalRuleName
    ensures DerivedRuleName(Some(originalRuleName), originalRuleName, value, toHashCode) == Some(originalRuleName)
  {
    RemoveSpacesKeepsSpaceless(originalRuleName);
  }

  // ---------------------------------------------------------------------
  // The builder
  // ---------------------------------------------------------------------

  class FDRuleBuilder {
    var value: Option<seq<string>>
    var tableNames: seq<string>
    var schemas: seq<Schema>
    var ruleName: Option<string>
    var originalRuleName: string
    var lhs: set<string>
    var rhs: set<string>

    constructor (value: Option<seq<string>>, tableNames: seq<string>, schemas: seq<Schema>, ruleName: Option<string>)
      ensures this.value == value && this.tableNames == tableNames && this.schemas == schemas
      ensures this.ruleName == ruleName && originalRuleName == (if ruleName.Some? then ruleName.value else "")
      ensures lhs == {} && rhs == {}
    {
      this.value := value;
      this.tableNames := tableNames;
      this.schemas := schemas;
      this.ruleName := ruleName;
      originalRuleName := if ruleName.Some? then ruleName.value else "";
      lhs := {};
      rhs := {};
    }

    /** One side's loop over its trimmed, lower-cased pieces, stopping at the first rejected one. */
    static method ParseSideLoop(ctx: SideContext, tokens: seq<string>) returns (r: Result<set<string>, FdError>)
      ensures r == ParseSide(ctx, tokens, |tokens|)
    {
      var names: set<string> := {};
      var i := 0;
      while i < |tokens|
        invariant 0 <= i <= |tokens|
        invariant ParseSide(ctx, tokens, i) == Success(names)
      {
        var token := tokens[i];
        if |token| == 0 {
          r := Failure(InvalidRuleDescription(ctx.line));
          FailureSticks(ctx, tokens, i + 1);
          return;
        }
        var column := Qualify(token, ctx.defaultTable, ctx.isValidColumnName);
        if column in names {
          r := Failure(DuplicatedColumn(column));
          FailureSticks(ctx, tokens, i + 1);
          return;
        }
        if column !in ctx.known {
          r := Failure(UnknownColumn(column));
          FailureSticks(ctx, tokens, i + 1);
          return;
        }
        names := names + {column};
        i := i + 1;
      }
      r := Success(names);
    }

    /**
     * parse: on success the two sides become the parsed column names; on a
     * rejection the error is reported and both sides are left as they were.
     */
    method Parse(isValidColumnName: string -> bool) returns (error: Option<FdError>)
      modifies this
      ensures value == old(value) && tableNames == old(tableNames) && schemas == old(schemas)
      ensures ruleName == old(ruleName) && originalRuleName == old(originalRuleName)
      ensures match ParseFd(value, tableNames, schemas, isValidColumnName)
        case Success(sides) => error.None? && lhs == sides.0 && rhs == sides.1
        case Failure(e) => error == Some(e) && lhs == old(lhs) && rhs == old(rhs)
    {
      if value.None? || |value.value| != 1 {
        return Some(InvalidFdContent);
      }
      var line := value.value[0];
      var parts := JavaSplit(Trim(line), '|');
      if |parts| != 2 {
        return Some(InvalidRuleDescription(line));
      }
      if tableNames == [] {
        return Some(MissingTableName);
      }
      if schemas == [] {
        return Some(MissingSchema);
      }
      var ctx := SideContext(line, tableNames[0], ColumnNames(schemas[0]), isValidColumnName);
      var lhsNames := ParseSideLoop(ctx, Tokens(JavaSplit(parts[0], ',')));
      if lhsNames.Failure? {
        return Some(lhsNames.error);
      }
      var rhsNames := ParseSideLoop(ctx, Tokens(JavaSplit(Trim(parts[1]), ',')));
      if rhsNames.Failure? {
        return Some(rhsNames.error);
      }
      lhs := lhsNames.value;
      rhs := rhsNames.value;
      return None;
    }

    /** The rule-name step of generate. */
    method DeriveRuleName(toHashCode: string -> string) returns (error: bool)
      modifies this
      ensures var v := if old(value).Some? then old(value).value else [];
        match DerivedRuleName(old(ruleName), originalRuleName, v, toHashCode)
        case Some(name) => !error && ruleName == Some(name)
        case None => error && ruleName == old(ruleName)
      ensures value == old(value) && originalRuleName == old(originalRuleName)
      ensures tableNames == old(tableNames) && schemas == old(schemas)
      ensures lhs == old(lhs) && rhs == old(rhs)
    {
      var v := if value.Some? then value.value else [];
      if ruleName.None? || ruleName.value == "" {
        if v == [] {
          return true;
        }
        ruleName := Some("DefaultFD" + toHashCode(v[0]));
      } else {
        ruleName := Some(RemoveSpaces(originalRuleName));
      }
      return false;
    }
  }

  /** Once a token is rejected, the rest of the side is not looked at. */
  lemma {:induction false} FailureSticks(ctx: SideContext, tokens: seq<string>, n: nat)
    requires 0 < n <= |tokens|
    requires ParseSide(ctx, tokens, n).Failure?
    ensures ParseSide(ctx, tokens, |tokens|) == ParseSide(ctx, tokens, n)
    decreases |tokens| - n
  {
    if n < |tokens| {
      FailureSticks(ctx, tokens, n + 1);
    }
  }
}
