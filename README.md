# NADEEF core, modelled in Dafny

NADEEF is a data-cleaning system. Rules detect violations over the tuples of
a table, and each violation yields candidate fixes. This project models the
pieces of it named below and proves what they promise:

- **Tuple** (`tuple_model.dfy`, over the value types in `data_model.dfy`).
  Covers:
  - construction, with its argument checks;
  - value, text and cell lookup by column or by column name;
  - `getCells`, which skips the `tid` column;
  - `isFromTable`, which ignores case and accepts a `csv_` alias;
  - `hasSameValue`: equal row identifiers suffice, otherwise every non-tid
    position must agree.
- **FDRuleBuilder** (`fd_rule_builder.dfy`). Parses a one-line functional
  dependency `lhs | rhs` into the sets of qualified column names of each side.
  Each rejection is an error value, and checks happen in the source's order:
  - the content;
  - the split at `|`;
  - the default table and the schema;
  - for each token, emptiness, then a duplicate, then an unknown column.

  It also derives the generated rule's class name.
- **MyRule40k** (`my_rule40k.dfy`, with `tables.dfy` and `violations.dfy`).
  A pair rule that:
  - blocks the table on zipcode;
  - orders each block by city;
  - walks the block with two cursors, emitting every pair that straddles a
    change of value;
  - detects one violation per pair;
  - repairs each later city cell towards the first city cell.
- **MyRule1** (`rule1.dfy`). A single-tuple rule: zip 1183JV must lie in
  Amsterdam, compared ignoring case. Its repair sets every city cell to
  "amsterdam".
- **DBConfig** (`db_config.dfy`). Covers:
  - the builder with its test defaults;
  - the constructor's non-empty checks;
  - `getUrl`;
  - `getServerName` and `getDatabaseName`, which split the url at `/`.

  On a full JDBC url such as `jdbc:postgresql://host/db`, those two return
  the scheme and the empty string (`DbConfig.JdbcUrlNames`). They return the
  intended server and database only for urls whose first two '/'-separated
  pieces are the server and the database (`DbConfig.UrlPiecesNames`).

`java_strings.dfy` models the `java.lang.String` operations this code relies
on:
- `trim`;
- ASCII `toLowerCase` and `equalsIgnoreCase`;
- `startsWith` and `contains`;
- `replace(" ", "")`;
- `split` on a one-character literal, dropping trailing empty pieces.

Java `null` arguments become `Option`, and thrown exceptions become `Result`
failures.

## Model

| member | source | states |
|---|---|---|
| DataModel.IndexOf | core/src/qa/qcri/nadeef/core/datamodel/Tuple.java:63-64 | the schema lookup finds the column's first (and, in a valid schema, only) position, and reports absence exactly when the column is missing |
| TupleModel.NewTuple | core/src/qa/qcri/nadeef/core/datamodel/Tuple.java:43-55 | construction succeeds iff schema and values are non-null, the id is at least 1 and there is one value per column; null arguments or a bad id are reported before a size mismatch, and a size mismatch alone is reported as such; the tuple keeps the id, schema and values |
| TupleModel.Get | core/src/qa/qcri/nadeef/core/datamodel/Tuple.java:62-65 | a value is returned iff the schema holds the column, and it is the value at that column's position |
| TupleModel.GetByName | core/src/qa/qcri/nadeef/core/datamodel/Tuple.java:72-76 | get(String) finds a value iff the tuple's own table has a column of that name, and it is the value at that column's position |
| TupleModel.GetString | core/src/qa/qcri/nadeef/core/datamodel/Tuple.java:83-86 | text is returned iff the column's value is text; a missing column and a failed cast are distinct errors, the former exactly when the schema lacks the column, the latter otherwise |
| TupleModel.GetStringByName | core/src/qa/qcri/nadeef/core/datamodel/Tuple.java:93-96 | getString(String) succeeds iff the named column of the own table holds text, and yields that text; a missing column and a non-text value are distinct errors |
| TupleModel.GetCell | core/src/qa/qcri/nadeef/core/datamodel/Tuple.java:111-113 | a cell exists iff the schema holds the column; it carries that column, the tuple's id and the value get returns |
| TupleModel.GetCellByName | core/src/qa/qcri/nadeef/core/datamodel/Tuple.java:120-122 | getCell(String) exists iff the named column exists, and is the cell of that column with the tuple's id and its value |
| TupleModel.CellsOfSpec | core/src/qa/qcri/nadeef/core/datamodel/Tuple.java:128-139 | getCells holds exactly the cells of the non-"tid" columns, each with the tuple's id and get's value, and no column twice |
| TupleModel.GetCells | core/src/qa/qcri/nadeef/core/datamodel/Tuple.java:128-139 | the loop over the columns, skipping "tid", yields exactly that cell list in schema order |
| TupleModel.IsFromTable | core/src/qa/qcri/nadeef/core/datamodel/Tuple.java:154-164 | a tuple belongs to a table iff the name, lower-cased, is its own table name or the name behind a csv_ prefix, lower-cased |
| TupleModel.IsFromOwnTable | core/src/qa/qcri/nadeef/core/datamodel/Tuple.java:155-157 | a tuple belongs to its own table under any letter case |
| TupleModel.IsFromCsvAlias | core/src/qa/qcri/nadeef/core/datamodel/Tuple.java:159-162 | a tuple of "csv_name" also belongs to "name", under any letter case |
| TupleModel.IsFromTableOnlyOwnName | core/src/qa/qcri/nadeef/core/datamodel/Tuple.java:154-164 | without the csv_ prefix, the own name ignoring case is the only accepted name (both directions) |
| TupleModel.IsFromTableIgnoresCase | core/src/qa/qcri/nadeef/core/datamodel/Tuple.java:154-164 | the answer is the same for the argument and its lower-case form |
| TupleModel.HasSameValue | core/src/qa/qcri/nadeef/core/datamodel/Tuple.java:174-210 | the method (identity shortcut, length check, tid shortcut, scan skipping the tid position) returns exactly the SameValue relation |
| TupleModel.SameValueNullAndSelf | core/src/qa/qcri/nadeef/core/datamodel/Tuple.java:175-181 | null is never same-valued; a tuple always is with itself |
| TupleModel.SameValueNeedsEqualLength | core/src/qa/qcri/nadeef/core/datamodel/Tuple.java:183-185 | tuples with different numbers of values are never same-valued |
| TupleModel.SameValueTidShortCircuit | core/src/qa/qcri/nadeef/core/datamodel/Tuple.java:187-194 | equal row identifiers make tuples same-valued whatever their other values |
| TupleModel.SameValueWithoutTid | core/src/qa/qcri/nadeef/core/datamodel/Tuple.java:196-209 | without a row-identifier column, same-valued is exactly equal values |
| TupleModel.SameValueSymmetric | core/src/qa/qcri/nadeef/core/datamodel/Tuple.java:174-210 | for schemas placing the row identifier alike, the relation is symmetric |
| TupleModel.SameValueNotTransitive | core/src/qa/qcri/nadeef/core/datamodel/Tuple.java:174-210 | the relation is not transitive: three tuples exhibit it |
| JavaStrings.ToLower | ruleext/src/qa/qcri/nadeef/ruleext/FDRuleBuilder.java:112 | lower-casing keeps the length and maps every character through ASCII case folding |
| JavaStrings.TrimSpec | ruleext/src/qa/qcri/nadeef/ruleext/FDRuleBuilder.java:99 | trim returns a contiguous slice, drops only characters up to U+0020 on either side, and neither starts nor ends with one |
| JavaStrings.SplitAll | tools/src/qa/qcri/nadeef/tools/DBConfig.java:120 | the pieces between separators contain no separator and join back to the input |
| JavaStrings.DropTrailingEmpty | tools/src/qa/qcri/nadeef/tools/DBConfig.java:120 | only trailing empty pieces are removed, and the last kept piece is non-empty |
| JavaStrings.JavaSplitJoin | tools/src/qa/qcri/nadeef/tools/DBConfig.java:120 | split undoes a join of separator-free pieces whose last piece is non-empty |
| JavaStrings.JavaSplitTrailingSeparator | ruleext/src/qa/qcri/nadeef/ruleext/FDRuleBuilder.java:106 | a trailing separator after a non-empty string does not change the split |
| JavaStrings.RemoveSpaces | ruleext/src/qa/qcri/nadeef/ruleext/FDRuleBuilder.java:81 | the result holds no space, is no longer than the input, and keeps every other character exactly as often as the input has it |
| JavaStrings.RemoveSpacesAppend | ruleext/src/qa/qcri/nadeef/ruleext/FDRuleBuilder.java:81 | removing spaces works piece by piece, so the kept characters stay in their input order |
| JavaStrings.RemoveSpacesKeepsSpaceless | ruleext/src/qa/qcri/nadeef/ruleext/FDRuleBuilder.java:81 | removing spaces from a string without spaces returns it unchanged |
| JavaStrings.ContainsAt | tools/src/qa/qcri/nadeef/tools/DBConfig.java:112 | an occurrence at any position makes contains true |
| JavaStrings.ContainsOccurs | tools/src/qa/qcri/nadeef/tools/DBConfig.java:112 | contains is true only when an occurrence exists at some position (the converse of ContainsAt) |
| FdRuleBuilder.ParseFd | ruleext/src/qa/qcri/nadeef/ruleext/FDRuleBuilder.java:92-169 | a missing content or one that is not exactly one line is rejected as invalid content; success needs one line splitting into two parts at '\|', a default table and a schema |
| FdRuleBuilder.ParseFdSpec | ruleext/src/qa/qcri/nadeef/ruleext/FDRuleBuilder.java:98-168 | a two-part line with a table and a schema parses iff both sides' tokens are non-empty, known and distinct; the sides are then exactly their tokens' qualified names, one per token; a rejected left side decides the error |
| FdRuleBuilder.Qualify | ruleext/src/qa/qcri/nadeef/ruleext/FDRuleBuilder.java:117-121 | a token that is not a full column name gets the default table prefixed, otherwise it is kept |
| FdRuleBuilder.Tokens | ruleext/src/qa/qcri/nadeef/ruleext/FDRuleBuilder.java:112 | one token per piece, each trimmed and lower-cased |
| FdRuleBuilder.AddToken | ruleext/src/qa/qcri/nadeef/ruleext/FDRuleBuilder.java:112-135 | a token is accepted iff it is non-empty, not yet present and a known column once qualified; it then adds exactly its qualified name |
| FdRuleBuilder.ParseSideSpec | ruleext/src/qa/qcri/nadeef/ruleext/FDRuleBuilder.java:111-165 | a side parses iff every token is non-empty and known and no two name the same column; it then yields all their names, one per token |
| FdRuleBuilder.FailureSticks | ruleext/src/qa/qcri/nadeef/ruleext/FDRuleBuilder.java:113-134 | the first rejected token decides the side's error; later tokens are not consulted |
| FdRuleBuilder.FDRuleBuilder.ParseSideLoop | ruleext/src/qa/qcri/nadeef/ruleext/FDRuleBuilder.java:111-136 | the loop over one side's tokens returns exactly the specified side result, stopping at the first rejection |
| FdRuleBuilder.FDRuleBuilder.Parse | ruleext/src/qa/qcri/nadeef/ruleext/FDRuleBuilder.java:92-169 | on success lhs and rhs become the two sides' name sets; on any rejection the error is reported and lhs, rhs and every other field are unchanged |
| FdRuleBuilder.ParseNeedsTwoParts | ruleext/src/qa/qcri/nadeef/ruleext/FDRuleBuilder.java:99-103 | a line that does not split into exactly two parts at '\|' is rejected with that line before any column is read |
| FdRuleBuilder.LeftTrailingComma | ruleext/src/qa/qcri/nadeef/ruleext/FDRuleBuilder.java:106 | a trailing comma after a non-empty left side is ignored |
| FdRuleBuilder.PlainWordTokens | ruleext/src/qa/qcri/nadeef/ruleext/FDRuleBuilder.java:106-112 | a lower-case word is its own single token |
| FdRuleBuilder.SplitWordRule | ruleext/src/qa/qcri/nadeef/ruleext/FDRuleBuilder.java:99 | "l\|r" of two lower-case words splits into the two words |
| FdRuleBuilder.ParseSimpleRule | ruleext/src/qa/qcri/nadeef/ruleext/FDRuleBuilder.java:92-169 | "l\|r" over two columns of the default table parses into one qualified name per side |
| FdRuleBuilder.DerivedRuleName | ruleext/src/qa/qcri/nadeef/ruleext/FDRuleBuilder.java:77-82 | an unnamed rule is called "DefaultFD" plus the hash of its line (no line: no name); a named rule gets its original name with every space removed |
| FdRuleBuilder.DerivedRuleNameStable | ruleext/src/qa/qcri/nadeef/ruleext/FDRuleBuilder.java:80-81 | a rule name without spaces is kept unchanged |
| FdRuleBuilder.FDRuleBuilder.DeriveRuleName | ruleext/src/qa/qcri/nadeef/ruleext/FDRuleBuilder.java:77-82 | the rule-name step stores the derived name and changes no other field (line, tables, schemas, original name, sides); with no line to hash it reports an error and keeps the name |
| Rule1.CityAndZip | test/src/qa/qcri/nadeef/test/udf/MyRule1.java:35-36 | both cells exist iff the tuple's table has a city and a zip column; each carries its column, the tuple's id and the value get returns for it |
| Rule1.Detect | test/src/qa/qcri/nadeef/test/udf/MyRule1.java:28-41 | reading city, then zip, as text fails in that order; otherwise exactly one violation iff zip equals 1183JV and city differs from amsterdam ignoring case, holding the city and zip cells with the values read |
| Rule1.Repair | test/src/qa/qcri/nadeef/test/udf/MyRule1.java:51-63 | every fix sets a city cell of the violation to "amsterdam", and each city cell is fixed exactly as many times as it occurs among the violation's cells |
| Rule1.CityFixesAppend | test/src/qa/qcri/nadeef/test/udf/MyRule1.java:55-60 | the fixes follow the cells' order: the fixes of two runs of cells are those of the first run, then those of the second |
| Rule1.DetectThenRepair | test/src/qa/qcri/nadeef/test/udf/MyRule1.java:28-63 | repairing a detected violation yields exactly one fix: the city cell becomes "amsterdam" |
| Rule1.DetectIgnoresZipCase | test/src/qa/qcri/nadeef/test/udf/MyRule1.java:32 | a lower-case zip "1183jv" is still recognised |
| Rule1.DetectIgnoresCityCase | test/src/qa/qcri/nadeef/test/udf/MyRule1.java:33 | "AMSTERDAM" counts as Amsterdam, so no violation |
| Tables.OrderBy | test/src/qa/qcri/nadeef/test/udf/MyRule40k.java:79 | orderBy yields a sorted permutation of the block |
| Tables.OrderByTiesByTid | test/src/qa/qcri/nadeef/test/udf/MyRule40k.java:79 | neighbours with equal column values come in tuple-id order |
| Tables.GroupOn | test/src/qa/qcri/nadeef/test/udf/MyRule40k.java:66 | groupOn partitions the table: nothing lost or repeated, groups non-empty, uniform in key and of distinct keys |
| Tables.GroupBySpec | test/src/qa/qcri/nadeef/test/udf/MyRule40k.java:66 | the generic grouping is a partition into well-formed groups |
| Tables.GroupOnUniform | test/src/qa/qcri/nadeef/test/udf/MyRule40k.java:66 | a table whose tuples agree on the columns is one group, in order |
| Tables.SameKeySameGroup | test/src/qa/qcri/nadeef/test/udf/MyRule40k.java:66 | tuples that agree on the columns land in the same group |
| Violations.AddTupleSpec | test/src/qa/qcri/nadeef/test/udf/MyRule40k.java:119-121 | addTuple records the tuple, keeps earlier cells in place, holds every cell of the tuple and adds nothing else, with distinct cell identities |
| Rule40k.MyRule40k.constructor | test/src/qa/qcri/nadeef/test/udf/MyRule40k.java:31-34 | a new rule starts with empty left- and right-hand sides; its empty rule name and table names are the model's own starting values for fields the superclass holds |
| Rule40k.MyRule40k.Initialize | test/src/qa/qcri/nadeef/test/udf/MyRule40k.java:37-43 | the id and table names are bound, zipcode is appended to the left side and city to the right side |
| Rule40k.MyRule40k.Block | test/src/qa/qcri/nadeef/test/udf/MyRule40k.java:64-68 | every tuple of the first table is in exactly one block, and a block holds the tuples of one zipcode |
| Rule40k.NextBoundaryRun | test/src/qa/qcri/nadeef/test/udf/MyRule40k.java:88-92 | every tuple before the boundary is same-valued with the run's first, and the boundary tuple is not |
| Rule40k.NextBoundaryUnique | test/src/qa/qcri/nadeef/test/udf/MyRule40k.java:88-103 | any position that ends a same-valued run at a mismatch or at the end is the boundary |
| Rule40k.MyRule40k.FindBoundary | test/src/qa/qcri/nadeef/test/udf/MyRule40k.java:88-104 | the inner cursor stops at the boundary, and a violation is found iff the boundary lies inside the block |
| Rule40k.MyRule40k.EmitStraddling | test/src/qa/qcri/nadeef/test/udf/MyRule40k.java:96-101 | the nested loops emit every run position against every position from the boundary on, row by row |
| Rule40k.MyRule40k.Scan | test/src/qa/qcri/nadeef/test/udf/MyRule40k.java:86-106 | the two-cursor walk emits the specified stream |
| Rule40k.MyRule40k.Iterator | test/src/qa/qcri/nadeef/test/udf/MyRule40k.java:76-107 | the block is ordered by city and the stream is the tuple pairs at exactly the boundary-straddling positions, all inside the block |
| Rule40k.ScanPairs | test/src/qa/qcri/nadeef/test/udf/MyRule40k.java:86-106 | every emitted position pair is ordered and inside the block, from the current run on |
| Rule40k.ScanPairsStraddle | test/src/qa/qcri/nadeef/test/udf/MyRule40k.java:86-106 | every emitted pair is separated by a detected boundary |
| Rule40k.ScanPairsCover | test/src/qa/qcri/nadeef/test/udf/MyRule40k.java:86-106 | every pair of positions a detected boundary separates is emitted |
| Rule40k.ScanMissesPairInsideRun | test/src/qa/qcri/nadeef/test/udf/MyRule40k.java:88-92 | two tuples of one run that are not same-valued can go unpaired |
| Rule40k.RowsLength | test/src/qa/qcri/nadeef/test/udf/MyRule40k.java:96-101 | a boundary emits (pos2 - pos1) * (n - pos2) pairs |
| Rule40k.ScanStreamAt | test/src/qa/qcri/nadeef/test/udf/MyRule40k.java:86-106 | the tuple-level stream is the tuple pairs at the specified positions |
| Rule40k.PairsAtInRange | test/src/qa/qcri/nadeef/test/udf/MyRule40k.java:98-99 | positions inside the block give one pair each, of the tuples at those positions |
| Rule40k.TwoTupleScan | test/src/qa/qcri/nadeef/test/udf/MyRule40k.java:86-106 | a two-tuple block whose tuples differ yields exactly that one pair |
| Rule40k.TwoTupleBlock | test/src/qa/qcri/nadeef/test/udf/MyRule40k.java:64-106 | two differing tuples of one zipcode form one block whose scan yields exactly one pair |
| Rule40k.MyRule40k.Detect | test/src/qa/qcri/nadeef/test/udf/MyRule40k.java:115-124 | one violation naming both tuples, holding every cell of both and nothing else, without duplicate identities |
| Rule40k.MyRule40k.Repair | test/src/qa/qcri/nadeef/test/udf/MyRule40k.java:133-156 | the candidate-map loop yields exactly the specified fix list |
| Rule40k.PairFixesCount | test/src/qa/qcri/nadeef/test/udf/MyRule40k.java:140-154 | every right-hand-side cell yields a fix except the first of each column |
| Rule40k.PairFixesTargetFirstCell | test/src/qa/qcri/nadeef/test/udf/MyRule40k.java:142-147 | each fix moves a right-hand-side cell of the violation towards the first cell of its column |
| Rule40k.PairFixLaterCell | test/src/qa/qcri/nadeef/test/udf/MyRule40k.java:142-151 | the cell a fix changes sits after the first cell of its column, so a column's first cell is never fixed |
| Rule40k.CellOrderDecidesDirection | test/src/qa/qcri/nadeef/test/udf/MyRule40k.java:140-151 | of two city cells, the one walked later is fixed towards the one walked first, so swapping their order reverses the fix |
| Rule40k.PairFixesCover | test/src/qa/qcri/nadeef/test/udf/MyRule40k.java:140-154 | every right-hand-side cell after the first cell of its column gets a fix towards that first cell |
| Rule40k.PairFixesStep | test/src/qa/qcri/nadeef/test/udf/MyRule40k.java:140-154 | the fix list grows cell by cell in order: a cell adds one fix, towards the first earlier cell of its column, exactly when it is on the right-hand side and such a cell exists |
| DbConfig.NewConfig | tools/src/qa/qcri/nadeef/tools/DBConfig.java:88-99 | construction succeeds iff user name, password and url are all non-null and non-empty, keeping all four settings; otherwise an illegal-argument error |
| DbConfig.NewDefaultDialectConfig | tools/src/qa/qcri/nadeef/tools/DBConfig.java:77-79 | the three-argument constructor is the four-argument one with the Postgres dialect |
| DbConfig.NewConfigValid | tools/src/qa/qcri/nadeef/tools/DBConfig.java:89-93 | every constructed configuration holds non-empty strings |
| DbConfig.GetUrl | tools/src/qa/qcri/nadeef/tools/DBConfig.java:111-116 | a url containing "jdbc:" is returned as is; any other is built from the url and the dialect |
| DbConfig.GetDatabaseName | tools/src/qa/qcri/nadeef/tools/DBConfig.java:118-126 | a name exists iff the url splits into more than one piece at '/', and it is the second piece, holding no '/' |
| DbConfig.GetServerName | tools/src/qa/qcri/nadeef/tools/DBConfig.java:128-136 | a name exists iff the split is non-empty, and it is the first piece, holding no '/' |
| DbConfig.ServerAndDatabaseRoundTrip | tools/src/qa/qcri/nadeef/tools/DBConfig.java:118-136 | "server/database" gives back its server and its database |
| DbConfig.UrlPiecesNames | tools/src/qa/qcri/nadeef/tools/DBConfig.java:118-136 | a url of '/'-free pieces joined by '/', the last non-empty, names its first piece as server and its second, if any, as database |
| DbConfig.UrlWithoutSlash | tools/src/qa/qcri/nadeef/tools/DBConfig.java:118-136 | a url without '/' is the server name, with no database |
| DbConfig.UrlOnlySlashes | tools/src/qa/qcri/nadeef/tools/DBConfig.java:118-136 | a url made only of '/' names neither server nor database |
| DbConfig.JdbcUrlNames | tools/src/qa/qcri/nadeef/tools/DBConfig.java:111-136 | for "scheme//host/database" the server name is the scheme and the database name is empty |
| DbConfig.Builder.constructor | tools/src/qa/qcri/nadeef/tools/DBConfig.java:39-42 | a builder starts with user and password "tester", url "localhost/unittest" and the Postgres dialect |
| DbConfig.Builder.Username | tools/src/qa/qcri/nadeef/tools/DBConfig.java:44-47 | sets the user name, returns the same builder, leaves the rest |
| DbConfig.Builder.Password | tools/src/qa/qcri/nadeef/tools/DBConfig.java:49-52 | sets the password, returns the same builder, leaves the rest |
| DbConfig.Builder.Url | tools/src/qa/qcri/nadeef/tools/DBConfig.java:54-57 | sets the url, returns the same builder, leaves the rest |
| DbConfig.Builder.Dialect | tools/src/qa/qcri/nadeef/tools/DBConfig.java:59-62 | sets the dialect, returns the same builder, leaves the rest |
| DbConfig.Builder.Build | tools/src/qa/qcri/nadeef/tools/DBConfig.java:64-66 | build is the constructor applied to the current settings, with its success condition and error |
| DbConfig.BuildDefaults | tools/src/qa/qcri/nadeef/tools/DBConfig.java:38-66 | a fresh builder builds the test configuration, whose url names server "localhost" and database "unittest" |
| DbConfig.BuildWithoutUrl | tools/src/qa/qcri/nadeef/tools/DBConfig.java:54-66 | a null url makes build fail whatever user name, password and dialect were set |

## Left out

- Java `null` is modelled only where the source tests for it (constructor arguments, `hasSameValue(null)`, the FD content, `DBConfig` strings). A null value stored in a tuple, and the NullPointerException it would cause in `hasSameValue` or MyRule1, are not modelled.
- Values are text or integers. Other Java objects, and `equals` beyond structural equality, are not modelled.
- Case folding and `trim` are modelled for ASCII and code points up to U+0020. Locale-dependent and Unicode case mapping are not.
- `split` is modelled for a one-character literal separator only, which is every use in the core.
- Schema, Column, Cell, Violation, Fix and Table are not part of this model's source. Their behaviour is modelled from how the core uses them: `Schema.get` is a position lookup, `Column("t.c")` is compared by its full name, `addTuple` adds the tuple's cells, `addCell` ignores a cell already held, and `Cell.containsAttribute(name)` holds when the cell's column has that name (Rule1.Repair). `groupOn` groups by the columns' values in first-appearance order. `orderBy` sorts by the columns' values, breaking ties by tuple id.
- The FD sides are sets. The order of a `HashSet` copied into a list is not modelled.
- Rule1.Detect: a non-text value read through `getString` is a `NotAString` error. It stands for the ClassCastException.
- Rule40k.MyRule40k.Iterator: the iterator stream is its sequence of puts. The blocking queue, the consumer threads and the source's in-place reordering of the table are left out; the model returns the ordered block instead.
- Rule40k.MyRule40k.Repair: the cells are walked in the violation's list order, the left tuple's cells first, so the right tuple's city is fixed towards the left tuple's city. The source iterates a `Collection<Cell>` whose order is not part of this model; under another iteration order the source makes the first cell it meets the candidate and fixes the opposite cell (`Rule40k.CellOrderDecidesDirection`).
- `horizontalScope` and `Table.project` are left out. Table is not part of this model, and neither is `project`'s in-place narrowing of the table's visible columns. The model has no scope step: the iterator works on the block's full tuples, so `hasSameValue` compares every column.
- Rule40k.MyRule40k.Block: requires a non-empty collection of tables. The NoSuchElementException that `tables.iterator().next()` throws on an empty one is not modelled.
- Rule40k.MyRule40k.Iterator: requires a non-empty collection of tables, for the same reason as Block.
- The FDRuleBuilder constructor (FdRuleBuilder.FDRuleBuilder.constructor) stands in for the setup done by the RuleBuilder superclass, which is not part of this model. It stores the line, tables, schemas and rule name, and copies the rule name into `originalRuleName`.
- `CommonTools.isValidColumnName`, `CommonTools.toHashCode` and `CommonTools.buildJdbcUrl` are opaque function parameters.
- In `generate`, writing the StringTemplate file and compiling the generated class are left out. Only the rule-name derivation is modelled.
- `SQLDialect` names only Postgres. The other dialects are one opaque constructor.
- Plain getters (`getTupleId`, `getSchema`, `getUserName`, `getPassword`, `getDialect`) are field reads and have no member of their own.
