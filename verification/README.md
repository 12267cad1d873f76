# dbarchitect core, modelled in Dafny

dbarchitect turns a database design written in DBML into two things: a
diagram in the browser, and the sources of a Spring Boot project generated by
the backend. This project models the deterministic logic that sits between
those ends and proves what it does. Each module follows one source file.

- `DbmlParser` (dbml_parser.dfy) is the browser's own DBML reader,
  `parseDBML`. Its two regular expressions are modelled as scanners over
  `seq<char>`:
  - the table pattern, with a lazy body that stops at the first `}`;
  - the ref pattern, whose operator is one of `-`, `>`, `<`.

  Both global `exec` loops are modelled. So is the line-by-line body scan,
  with its indexes block and its composite primary-key promotion. The methods
  are proved against specification functions (`ParseDbmlSpec`, `ParseBody`).
  Lemmas then relate those functions back to the text: one table per table
  match, one column per column line, refs in text order, `<>` dropped.
- `SchemaGraph` (schema_graph.dfy) is the diagram's projection in
  `SchemaVisualizer`:
  - node-height estimate;
  - one node per table and one edge per ref;
  - relation → cardinality label and markers;
  - conversion from layout centres to corner positions;
  - the table view's arrow glyph;
  - the empty-schema placeholder.
- `SmartEdge` (smart_edge.dfy) is the side selection of `getSmartPositions`
  and the attachment points computed in `SmartEdge`.
- `DbmlCode` (dbml_code.dfy) is `DBMLCode.extractCleanDbmlCode`, both the
  instance version and the static one.
- `BackendHooks` (backend_hooks.dfy) covers the pure parts of `useBackend`:
  - the input guards;
  - the mapping of a reply to a result or an error message;
  - the fence wrap sent by `updateDbml`;
  - the fence strip in `compareCode`.
- `CodeGenerator` (code_generator.dfy) covers:
  - `toCamelCase` and `mapSqlToJavaType`;
  - `prepareDataModel`, with its relationship loop and its column loop;
  - the four files emitted per table by `generateAllSourceFiles`.
- `ProjectTree` (project_tree.dfy) is `ProjectTreeBuilder`:
  - `buildTree`, a class whose node list grows in place;
  - `findChild`;
  - `detectLanguage`;
  - the naming of archive entries.
- `MainService` (main_service.dfy) covers:
  - the field-map comparison of `compareCode`;
  - the last-wins fold of `extractFields`;
  - the preview's file-name derivation.
- `CodeGenerationModal` (code_generation_modal.dfy) covers:
  - the file-type tag;
  - the sorted copy of the file list, an insertion sort over an array;
  - the sidebar label;
  - the `activeTab` state kept by a `Modal` class.
- `Text` (text.dfy) holds the JavaScript and Java string operations these rely
  on:
  - `trim` (JavaScript and Java white space);
  - `startsWith`, `endsWith` and `indexOf`;
  - `split` on one character (JavaScript, and Java with trailing empties
    dropped);
  - ASCII case mapping;
  - decimal printing.
- `Types` (types.dfy) holds the shared records: `Column`, `Table`, `Ref`,
  `ParsedSchema` and `GeneratedFile`.

`parseDBML` pushes every table match, so tables of the same name are all kept
(`DbmlParser.TablesOfIndex`).

## Model

| member | source | states |
|---|---|---|
| DbmlParser.ParseDbml | frontend/src/services/dbmlParser.ts:4-97 | the parse equals `ParseDbmlSpec`: nothing for blank input, otherwise the tables of all table matches and the refs of all ref matches |
| DbmlParser.BlankShortcutAgrees | frontend/src/services/dbmlParser.ts:5-7 | the blank-input shortcut changes nothing: white-space-only text has no table match and no ref match |
| DbmlParser.BlankIsAllSpaces | frontend/src/services/dbmlParser.ts:5 | text that trims to "" consists of JavaScript white space only |
| DbmlParser.CollectTables | frontend/src/services/dbmlParser.ts:13-81 | the table loop yields one table per successive match, in text order, duplicates kept |
| DbmlParser.TablesStep | frontend/src/services/dbmlParser.ts:15-80 | one turn of the table loop appends the table of the next match and moves past it |
| DbmlParser.TablesOfStep | frontend/src/services/dbmlParser.ts:15-80 | the tables of the remaining matches are the next match's table followed by the tables after it |
| DbmlParser.TablesDone | frontend/src/services/dbmlParser.ts:15 | when `exec` finds no further match, the tables collected are those of all matches from the start |
| DbmlParser.MatchTableAt | frontend/src/services/dbmlParser.ts:13 | a match at p starts at p, ends after it, and has a non-empty word name and a body free of `}` |
| DbmlParser.MatchTableAtSound | frontend/src/services/dbmlParser.ts:13 | every reported match is an instance of `Table\s+(\w+)\s*\{…\}`, with the name and body taken from those positions |
| DbmlParser.MatchTableAtComplete | frontend/src/services/dbmlParser.ts:13 | every instance of the pattern at p is reported at p, with exactly its name and body |
| DbmlParser.SliceAvoids | frontend/src/services/dbmlParser.ts:13 | a stretch of text in which no position holds `}` is a body free of `}` |
| DbmlParser.ExecTable | frontend/src/services/dbmlParser.ts:15 | `exec` from a position finds a match that lies at or after it |
| DbmlParser.ExecTableLeftmost | frontend/src/services/dbmlParser.ts:15 | the match `exec` finds is a match, and no match starts before it (none at all when it finds none) |
| DbmlParser.ExecTableNone | frontend/src/services/dbmlParser.ts:13-15 | white space alone holds no table match |
| DbmlParser.TableMatches | frontend/src/services/dbmlParser.ts:15 | the successive matches lie in the text, in order and without overlap |
| DbmlParser.TableMatchesAreMatches | frontend/src/services/dbmlParser.ts:15 | each successive match is a match of the pattern at its start |
| DbmlParser.EveryTableMatchCovered | frontend/src/services/dbmlParser.ts:15 | every position where the pattern matches lies inside one of the successive matches |
| DbmlParser.TablesOfIndex | frontend/src/services/dbmlParser.ts:80 | there is exactly one table per match, and table i has match i's name and the columns of its body |
| DbmlParser.TablesOfLength | frontend/src/services/dbmlParser.ts:80 | as many tables as matches |
| DbmlParser.ParsedTableFromBlock | frontend/src/services/dbmlParser.ts:13-80 | every parsed table comes from a `Table name { body }` block of the text, with that name and the columns of that body |
| DbmlParser.TableFromMatch | frontend/src/services/dbmlParser.ts:13-17 | the table of a match is the table of a block of the pattern |
| DbmlParser.ParseTableBody | frontend/src/services/dbmlParser.ts:21-78 | the body loop yields `ParseBody`, the fold of the line step over the body's lines |
| DbmlParser.ScanLinesSnoc | frontend/src/services/dbmlParser.ts:24 | scanning one more line is one more step of the fold |
| DbmlParser.PromoteColumns | frontend/src/services/dbmlParser.ts:47-52 | the `forEach` over the named columns yields `PromoteAll` of them |
| DbmlParser.FindDelimited | frontend/src/services/dbmlParser.ts:41-70 | `match(/\[(.*?)\]/)`: the captured content holds no closing delimiter and no line terminator |
| DbmlParser.CloseAfter | frontend/src/services/dbmlParser.ts:41-69 | the lazy `.*?` stops at the first closing delimiter and fails at a line terminator |
| DbmlParser.SplitTrim | frontend/src/services/dbmlParser.ts:42-72 | one trimmed piece per comma-separated piece, in order, none dropped or merged |
| DbmlParser.DeclaredColumn | frontend/src/services/dbmlParser.ts:63-73 | name and type are the first two white-space-free tokens, the attributes are those of the first `[...]`; none when the line has one token |
| DbmlParser.PromoteOne | frontend/src/services/dbmlParser.ts:48-51 | the column the name points to gets "pk" if it lacked it; every other column, and every name and type, is unchanged |
| DbmlParser.PromoteAll | frontend/src/services/dbmlParser.ts:46-52 | every known named column ends up with "pk"; columns no name points to are unchanged; names and types never change |
| DbmlParser.PkAddedTrans | frontend/src/services/dbmlParser.ts:50 | repeated promotion still adds at most one "pk" |
| DbmlParser.ColumnLineIndices | frontend/src/services/dbmlParser.ts:24-78 | the indices of the column lines are line indices in increasing order |
| DbmlParser.ColumnLineIndicesSound | frontend/src/services/dbmlParser.ts:24-78 | every listed line is a column line: non-blank, not `//`, not `}`, outside an indexes block, with two tokens |
| DbmlParser.ColumnLinePrefix | frontend/src/services/dbmlParser.ts:24-35 | whether a line is a column line depends only on it and the lines before it |
| DbmlParser.ScanLinesShape | frontend/src/services/dbmlParser.ts:24-78 | the scan's columns correspond one to one, in order, to the column lines, with each line's name, type and attributes plus at most one promoted "pk"; the name map stays valid |
| DbmlParser.ScanStepColumn | frontend/src/services/dbmlParser.ts:63-77 | a column line appends exactly the column it declares |
| DbmlParser.ScanStepOther | frontend/src/services/dbmlParser.ts:26-60 | any other line adds no column and at most adds "pk" to earlier ones |
| DbmlParser.ParseLineShape | frontend/src/services/dbmlParser.ts:25-77 | one line step keeps the name map valid, moves the indexes flag, and appends a column exactly when the line declares one |
| DbmlParser.SkippedLineShape | frontend/src/services/dbmlParser.ts:26-32 | blank lines, `//` comments and `indexes {` lines add no column |
| DbmlParser.IndexesLineShape | frontend/src/services/dbmlParser.ts:35-57 | a line inside an indexes block adds no column and changes only attributes, by at most one "pk" each |
| DbmlParser.OutsideLineShape | frontend/src/services/dbmlParser.ts:60-77 | outside an indexes block, a stray `}` or one-token line adds nothing, and a column line appends its column |
| DbmlParser.PromoteKeepsValid | frontend/src/services/dbmlParser.ts:47-52 | promotion keeps the name map pointing at the last column of each name |
| DbmlParser.AppendKeepsValid | frontend/src/services/dbmlParser.ts:76-77 | `columnMap[name] = col` after a push keeps the map pointing at the most recent column of each name |
| DbmlParser.IndexesFlagStaysOpen | frontend/src/services/dbmlParser.ts:29-39 | in a body without `}`, an indexes block once opened never closes |
| DbmlParser.IndexesBlockEndsTable | frontend/src/services/dbmlParser.ts:13-57 | in such a body, no column line follows an opened indexes block |
| DbmlParser.LineInBlock | frontend/src/services/dbmlParser.ts:35-57 | a line read while the indexes block is open is not a column line |
| DbmlParser.BodyIndexesEndColumns | frontend/src/services/dbmlParser.ts:13-57 | the columns of a table body all come from lines before its `indexes {` block |
| DbmlParser.CollectRefs | frontend/src/services/dbmlParser.ts:84-94 | the ref loop yields one ref per successive match over the whole text, in text order |
| DbmlParser.RefsStep | frontend/src/services/dbmlParser.ts:86-93 | one turn of the ref loop appends the next match's ref and moves past it |
| DbmlParser.RefsOfStep | frontend/src/services/dbmlParser.ts:86-93 | the refs of the remaining matches are the next match's ref followed by the refs after it |
| DbmlParser.RefsDone | frontend/src/services/dbmlParser.ts:86 | when `exec` finds no further ref, the refs collected are those of all matches from the start |
| DbmlParser.QualifiedNameAt | frontend/src/services/dbmlParser.ts:84 | `(\w+)\.(\w+)` found at i has a non-empty word on each side of the dot |
| DbmlParser.QualifiedNameAtSound | frontend/src/services/dbmlParser.ts:84 | a reported qualified name is an instance of `(\w+)\.(\w+)` with greedy words |
| DbmlParser.QualifiedNameAtComplete | frontend/src/services/dbmlParser.ts:84 | every greedy instance is reported with its own positions |
| DbmlParser.MatchRefAt | frontend/src/services/dbmlParser.ts:84-90 | a ref match at p starts at p, and its relation is one of "-", ">", "<" |
| DbmlParser.MatchRefAtSound | frontend/src/services/dbmlParser.ts:84-93 | every reported ref is an instance of `Ref:\s*(\w+)\.(\w+)\s*([-><])\s*(\w+)\.(\w+)` with the five groups as its fields |
| DbmlParser.MatchRefAtSoundAt | frontend/src/services/dbmlParser.ts:84-93 | the same, once the scanner's positions are named |
| DbmlParser.MatchRefAtComplete | frontend/src/services/dbmlParser.ts:84-93 | every instance of the ref pattern at p is reported at p with exactly those fields |
| DbmlParser.RefSyntaxOfSkips | frontend/src/services/dbmlParser.ts:84 | the scanner's positions form an instance of the ref pattern |
| DbmlParser.SkipsOfRefSyntax | frontend/src/services/dbmlParser.ts:84 | an instance of the ref pattern is where the scanner's positions fall |
| DbmlParser.ExecRef | frontend/src/services/dbmlParser.ts:86 | `exec` finds a ref match at or after the search position |
| DbmlParser.ExecRefLeftmost | frontend/src/services/dbmlParser.ts:86 | the ref `exec` finds is a match and no match starts before it |
| DbmlParser.ExecRefNone | frontend/src/services/dbmlParser.ts:84-86 | white space alone holds no ref match |
| DbmlParser.RefMatches | frontend/src/services/dbmlParser.ts:86 | the successive ref matches lie in the text, in order and without overlap |
| DbmlParser.RefMatchesAreMatches | frontend/src/services/dbmlParser.ts:86 | each successive ref match is a match at its start |
| DbmlParser.EveryRefMatchCovered | frontend/src/services/dbmlParser.ts:86 | every position where the ref pattern matches lies inside one of the successive matches |
| DbmlParser.RefsOfIndex | frontend/src/services/dbmlParser.ts:87-93 | exactly one ref per match, ref i being match i's |
| DbmlParser.RefsOfLength | frontend/src/services/dbmlParser.ts:87-93 | as many refs as matches |
| DbmlParser.ParsedRefFromLine | frontend/src/services/dbmlParser.ts:84-93 | every parsed ref comes from an instance of the ref pattern in the text, fields taken from its groups |
| DbmlParser.NoRefKeywordNoRefs | frontend/src/services/dbmlParser.ts:84 | text without the case-sensitive "Ref:" (such as an inline `[ref: > T.c]`) yields no ref |
| DbmlParser.ManyToManyDropped | frontend/src/services/dbmlParser.ts:84-93 | a `Ref: a.b <> …` declaration anywhere in a schema, with any white space before its first name and before `<>`, starts none of the matches the `exec` loop visits, so no ref is read from its keyword on |
| DbmlParser.OperatorWithoutWord | frontend/src/services/dbmlParser.ts:84 | at the keyword of such a declaration the pattern fails: the operator is `<` and the `>` after it starts no word |
| DbmlParser.NoNameAfterOperator | frontend/src/services/dbmlParser.ts:84 | when both words are present, the first name is read and the operator found is `<`, but no name follows it |
| DbmlParser.ManyToManyLineHasNoRefs | frontend/src/services/dbmlParser.ts:84-93 | a schema that is one `Ref: a.b <> c.d` line has no ref at all |
| DbmlParser.ManyToManyLayout | frontend/src/services/dbmlParser.ts:84 | such a line is a `<>` declaration at its start |
| DbmlParser.ManyToManyOneKeyword | frontend/src/services/dbmlParser.ts:84 | such a line holds "Ref:" only at its start |
| DbmlParser.OnlyRefAtZero | frontend/src/services/dbmlParser.ts:84-86 | text whose only "Ref:" is at its start, where the pattern fails, yields no ref |
| SchemaGraph.FindTable | frontend/src/components/SchemaVisualizer.tsx:232 | `tables.find`: the first table with that name, or none exactly when no table has it |
| SchemaGraph.EstimateNodeHeight | frontend/src/components/SchemaVisualizer.tsx:231-236 | the estimate is 60 plus a whole number of 36-pixel rows |
| SchemaGraph.EstimateUsesFirstTable | frontend/src/components/SchemaVisualizer.tsx:232-235 | with a table of that name, the height is 48 + 36·(columns of the first such table) + 12 |
| SchemaGraph.EstimateUnknownName | frontend/src/components/SchemaVisualizer.tsx:233-235 | with no such table, three rows are assumed: 168 |
| SchemaGraph.BuildNodes | frontend/src/components/SchemaVisualizer.tsx:282-288 | one node per table, in order, id = table name, carrying the table, at (0, 0) |
| SchemaGraph.RelationStyle | frontend/src/components/SchemaVisualizer.tsx:292-317 | many-markers exactly on the many sides of `<>`, `>` and `<`; "M:N" exactly for `<>`; "1:1" exactly for any other relation |
| SchemaGraph.BuildEdges | frontend/src/components/SchemaVisualizer.tsx:290-341 | one edge per ref, in order, id "e"+index, source/target the two tables, the two columns as data, the relation's style |
| SchemaGraph.EdgeIdsDistinct | frontend/src/components/SchemaVisualizer.tsx:320 | no two edges share an id |
| SchemaGraph.ParsedSchemaHasNoManyToMany | frontend/src/components/SchemaVisualizer.tsx:294-303 | for a schema read by the parser, the "M:N" branch is never taken |
| SchemaGraph.ApplyLayout | frontend/src/components/SchemaVisualizer.tsx:267-277 | the same nodes in the same order with the same ids and tables; only positions change |
| SchemaGraph.LayoutCentresRoundTrip | frontend/src/components/SchemaVisualizer.tsx:258-273 | the centre of each placed 300 × (h+20) box is the centre the layout gave |
| SchemaGraph.ApplyLayoutIdempotent | frontend/src/components/SchemaVisualizer.tsx:267-277 | placing already placed nodes again changes nothing |
| SchemaGraph.GlyphMatchesLabel | frontend/src/components/SchemaVisualizer.tsx:496 | the table view shows → exactly for the 1:N edges and ← exactly for the N:1 edges |
| SchemaGraph.PlaceholderExactlyForEmptySchema | frontend/src/components/SchemaVisualizer.tsx:473-476 | the placeholder shows for blank text, and exactly when the text has no table match and no ref match |
| SmartEdge.SizeOr | frontend/src/components/SmartEdge.tsx:71-95 | a missing or zero width or height falls back to 280 or 200, any other size is kept |
| SmartEdge.SmartSides | frontend/src/components/SmartEdge.tsx:13-37 | the two sides are opposite; left or right exactly when the horizontal distance exceeds the vertical one, each side facing the other centre (Top on ties with dy ≤ 0) |
| SmartEdge.SmartSidesSwap | frontend/src/components/SmartEdge.tsx:13-37 | swapping source and target swaps the sides, except that coincident centres give (Top, Bottom) both ways |
| SmartEdge.Attachment | frontend/src/components/SmartEdge.tsx:87-127 | the attachment point is the midpoint of the chosen side of the box |
| SmartEdge.AttachmentOnBorder | frontend/src/components/SmartEdge.tsx:87-127 | the point lies on the box's border, and opposite attachment points are symmetric about its centre |
| SmartEdge.EdgeRoute | frontend/src/components/SmartEdge.tsx:60-149 | no route exactly when a node is missing; otherwise opposite sides and each end at its side's attachment point |
| SmartEdge.RouteFacesTarget | frontend/src/components/SmartEdge.tsx:71-84 | the source side faces the target's centre |
| DbmlCode.ExtractCleanDbmlCode | backend/src/main/java/com/dbarchitect/backend/utils/DBMLCode.java:28-41 | the result is the input or holds no "```" |
| DbmlCode.ExtractWithoutFence | backend/src/main/java/com/dbarchitect/backend/utils/DBMLCode.java:32-40 | input without "```dbml" comes back unchanged |
| DbmlCode.ExtractUnclosedFence | backend/src/main/java/com/dbarchitect/backend/utils/DBMLCode.java:34-40 | when no "```" follows the first "```dbml", the input comes back unchanged |
| DbmlCode.ExtractBetweenFences | backend/src/main/java/com/dbarchitect/backend/utils/DBMLCode.java:32-37 | otherwise the result is the Java-trimmed text between the first "```dbml" and the next "```" |
| DbmlCode.SliceWithoutPattern | backend/src/main/java/com/dbarchitect/backend/utils/DBMLCode.java:35-37 | the text before the first closing fence, trimmed, holds no fence |
| DbmlCode.SliceWithoutOccurrence | backend/src/main/java/com/dbarchitect/backend/utils/DBMLCode.java:37 | a stretch with no occurrence starting in it does not contain the pattern |
| DbmlCode.IndexOfFinds | backend/src/main/java/com/dbarchitect/backend/utils/DBMLCode.java:32-35 | `indexOf` returns the first occurrence at or after the start |
| DbmlCode.NoFenceNoStart | backend/src/main/java/com/dbarchitect/backend/utils/DBMLCode.java:32 | text without "```" has no "```dbml" |
| DbmlCode.ExtractIdempotent | backend/src/main/java/com/dbarchitect/backend/utils/DBMLCode.java:28-41 | extracting twice gives what extracting once gives |
| DbmlCode.DBMLCode.constructor | backend/src/main/java/com/dbarchitect/backend/utils/DBMLCode.java:9-11 | the object holds the raw text |
| DbmlCode.DBMLCode.ExtractClean | backend/src/main/java/com/dbarchitect/backend/utils/DBMLCode.java:13-26 | the instance version agrees with the static one on the same text |
| BackendHooks.GenerateDbmlRequest | frontend/src/hooks/useBackend.ts:19-41 | blank requirements are refused first, then a blank project name, each with its message; otherwise the request carries both and the model name |
| BackendHooks.ReplyErrorMessage | frontend/src/hooks/useBackend.ts:44-45 | the error body when non-empty, else "Backend error: " and the status |
| BackendHooks.GenerateDbmlOutcome | frontend/src/hooks/useBackend.ts:43-64 | a failed reply gives its error; a reply succeeds exactly when its DBML is present and not blank, and is then returned as is |
| BackendHooks.GenerateCodeRequest | frontend/src/hooks/useBackend.ts:74-87 | refused with "DBML code cannot be empty." exactly when the DBML is blank |
| BackendHooks.ToGeneratedFiles | frontend/src/hooks/useBackend.ts:103-106 | same length and order; fileName is the path and the content is unchanged |
| BackendHooks.GenerateCodeOutcome | frontend/src/hooks/useBackend.ts:90-108 | a failed reply gives its error; a missing or empty list gives "No files generated from DBML."; otherwise the mapped files |
| BackendHooks.WrapDbml | frontend/src/hooks/useBackend.ts:229 | the sent text is "```dbml\n", the code, then "\n```" |
| BackendHooks.StripOpeningFences | frontend/src/hooks/useBackend.ts:256 | deleting "```dbml" (and a following newline) never lengthens the text |
| BackendHooks.StripOpeningFencesNone | frontend/src/hooks/useBackend.ts:256 | text without "```dbml" is left alone |
| BackendHooks.StripOpeningPlain | frontend/src/hooks/useBackend.ts:256 | text without backticks is kept as it is, whatever follows it |
| BackendHooks.StripOpeningPlainFrom | frontend/src/hooks/useBackend.ts:256 | a stretch without backticks is kept as it is, and the scan goes on after it |
| BackendHooks.StripOpeningKeeps | frontend/src/hooks/useBackend.ts:256 | a character that is not a backtick starts no opening fence and is kept |
| BackendHooks.StripOpeningFenceFirst | frontend/src/hooks/useBackend.ts:256 | a leading "```dbml" and the newline after it, if any, are deleted |
| BackendHooks.StripOpeningFenceAfter | frontend/src/hooks/useBackend.ts:256 | each "```dbml", with the newline after it when there is one, is deleted; the text before it is kept and the scan goes on after it |
| BackendHooks.StripClosingFences | frontend/src/hooks/useBackend.ts:256 | deleting "```" (and a preceding newline) never lengthens the text |
| BackendHooks.StripClosingPlain | frontend/src/hooks/useBackend.ts:256 | text without backticks is kept as it is, unless its final newline begins a fence with what follows |
| BackendHooks.StripClosingPlainFrom | frontend/src/hooks/useBackend.ts:256 | a stretch without backticks is kept as it is, unless its final newline begins a fence |
| BackendHooks.StripClosingKeeps | frontend/src/hooks/useBackend.ts:256 | a character that is neither a backtick nor a newline before one starts no closing fence and is kept |
| BackendHooks.StripClosingFenceFirst | frontend/src/hooks/useBackend.ts:256 | a leading "```", or a newline and "```", is deleted |
| BackendHooks.StripClosingFenceAfter | frontend/src/hooks/useBackend.ts:256 | each "```", with the newline before it when there is one, is deleted; the text before it is kept and the scan goes on after it |
| BackendHooks.StripClosingFencesTail | frontend/src/hooks/useBackend.ts:256 | on wrapped fence-free code, the only "```" removed is the final one, with its newline |
| BackendHooks.OnlyFinalFence | frontend/src/hooks/useBackend.ts:229-256 | fence-free code followed by "\n```" holds "```" only at the end |
| BackendHooks.BackticksAt | frontend/src/hooks/useBackend.ts:256 | an occurrence of "```" is three backticks |
| BackendHooks.CleanWrapped | frontend/src/hooks/useBackend.ts:229-257 | cleaning wrapped fence-free code gives back the trimmed code |
| BackendHooks.ExtractWrapped | frontend/src/hooks/useBackend.ts:229 | the backend's extraction of wrapped fence-free code is the Java-trimmed code |
| BackendHooks.WrappedOpeningFence | frontend/src/hooks/useBackend.ts:229 | the wrapped text opens with "```dbml" |
| BackendHooks.WrappedClosingFence | frontend/src/hooks/useBackend.ts:229 | its first "```" after the opening fence is the closing one |
| BackendHooks.WrappedInner | frontend/src/hooks/useBackend.ts:229 | between the fences lie a newline, the code and a newline |
| CodeGenerator.Capitalize | backend/src/main/java/com/dbarchitect/backend/utils/CodeGenerator.java:62 | same length, first character upper-cased, the rest unchanged |
| CodeGenerator.ToCamelCase | backend/src/main/java/com/dbarchitect/backend/utils/CodeGenerator.java:144-160 | the loop computes `CamelCase` of the input |
| CodeGenerator.CamelFromStep | backend/src/main/java/com/dbarchitect/backend/utils/CodeGenerator.java:147-158 | an underscore sets the flag and is dropped; another character is copied, upper-cased when the flag is set |
| CodeGenerator.CamelFromShape | backend/src/main/java/com/dbarchitect/backend/utils/CodeGenerator.java:144-160 | the result has no underscore, and its length is the input's minus its underscores |
| CodeGenerator.CountChar | backend/src/main/java/com/dbarchitect/backend/utils/CodeGenerator.java:148 | a count of occurrences is at most the length |
| CodeGenerator.CamelCaseIdentity | backend/src/main/java/com/dbarchitect/backend/utils/CodeGenerator.java:144-160 | underscore-free input comes back unchanged |
| CodeGenerator.CamelCaseIdempotent | backend/src/main/java/com/dbarchitect/backend/utils/CodeGenerator.java:144-160 | converting twice is converting once |
| CodeGenerator.CamelCaseTwoWords | backend/src/main/java/com/dbarchitect/backend/utils/CodeGenerator.java:144-160 | two underscore-free words joined by one or more underscores (`a_b`, `a__b`) become the first word followed by the second capitalised |
| CodeGenerator.CamelFromSkipsRun | backend/src/main/java/com/dbarchitect/backend/utils/CodeGenerator.java:147-153 | a run of underscores adds nothing and upper-cases the character after it |
| CodeGenerator.CamelFromUnderscoreFree | backend/src/main/java/com/dbarchitect/backend/utils/CodeGenerator.java:154-156 | an underscore-free prefix is copied as is |
| CodeGenerator.MapSqlToJavaType | backend/src/main/java/com/dbarchitect/backend/utils/CodeGenerator.java:163-169 | one of four types; Integer, Boolean, LocalDateTime exactly for "int", "boolean", "datetime" ignoring case; String otherwise |
| CodeGenerator.SameLengthWordsDiffer | backend/src/main/java/com/dbarchitect/backend/utils/CodeGenerator.java:164-167 | no type equals two different keywords of the same length ignoring case |
| CodeGenerator.MapSqlToJavaTypeExamples | backend/src/main/java/com/dbarchitect/backend/utils/CodeGenerator.java:163-169 | "INT" and "DateTime" map case-insensitively; "VARCHAR(50)" and "bigint" fall back to String |
| CodeGenerator.FirstKeyColumn | backend/src/main/java/com/dbarchitect/backend/utils/CodeGenerator.java:66-69 | the first primary-key column, or none exactly when no column has the setting |
| CodeGenerator.KeyFacts | backend/src/main/java/com/dbarchitect/backend/utils/CodeGenerator.java:66-75 | hasIncrement is the first key column's increment setting, and idType its mapped type |
| CodeGenerator.PrepareDataModel | backend/src/main/java/com/dbarchitect/backend/utils/CodeGenerator.java:58-141 | the data model built equals `DataModelOf`, the specification of the class's model |
| CodeGenerator.RelationLoop | backend/src/main/java/com/dbarchitect/backend/utils/CodeGenerator.java:83-117 | the relationship loop yields the foreign keys, many-to-one and one-to-many entries, and the List import exactly when some one-to-many entry exists |
| CodeGenerator.ColumnLoop | backend/src/main/java/com/dbarchitect/backend/utils/CodeGenerator.java:120-133 | the column loop yields the fields of the non-key columns and adds LocalDateTime once, exactly when some field needs it |
| CodeGenerator.RelationCounts | backend/src/main/java/com/dbarchitect/backend/utils/CodeGenerator.java:93-116 | each relationship adds one many-to-one entry when it leaves this table and one one-to-many entry when it arrives here (both for a self-reference), with the join column, classes and field names given |
| CodeGenerator.FieldsAreNonKeyColumns | backend/src/main/java/com/dbarchitect/backend/utils/CodeGenerator.java:120-128 | one field per non-foreign-key column, in order, with its name, mapped type and `isId` exactly when it has the key setting |
| CodeGenerator.NonKeyColumns | backend/src/main/java/com/dbarchitect/backend/utils/CodeGenerator.java:121 | exactly the columns whose name is not a foreign key |
| CodeGenerator.ImportsFacts | backend/src/main/java/com/dbarchitect/backend/utils/CodeGenerator.java:113-131 | imports hold no duplicate, never BigDecimal, and List exactly when a one-to-many entry exists |
| CodeGenerator.ModelsOf | backend/src/main/java/com/dbarchitect/backend/utils/CodeGenerator.java:221-222 | one data model per table |
| CodeGenerator.GenerateAllSourceFiles | backend/src/main/java/com/dbarchitect/backend/utils/CodeGenerator.java:216-238 | the files emitted are the four class files of each table's model, table after table |
| CodeGenerator.ModelsOfSnoc | backend/src/main/java/com/dbarchitect/backend/utils/CodeGenerator.java:221-222 | one more table adds its model at the end |
| CodeGenerator.AllSourceFilesSnoc | backend/src/main/java/com/dbarchitect/backend/utils/CodeGenerator.java:225-235 | one more model adds its four files at the end |
| CodeGenerator.SourceFileLayout | backend/src/main/java/com/dbarchitect/backend/utils/CodeGenerator.java:221-236 | four files per table; table k's are entity/C.java, repository/CRepository.java, service/CService.java, controller/CController.java, in that order |
| CodeGenerator.ClassFilesAt | backend/src/main/java/com/dbarchitect/backend/utils/CodeGenerator.java:221-236 | files 4k to 4k+3 are the class files of model k |
| CodeGenerator.ClassFilesPaths | backend/src/main/java/com/dbarchitect/backend/utils/CodeGenerator.java:225-235 | the four paths of one class, in order |
| CodeGenerator.AllSourceFilesLength | backend/src/main/java/com/dbarchitect/backend/utils/CodeGenerator.java:221-236 | four files per model |
| ProjectTree.BuildTree | backend/src/main/java/com/dbarchitect/backend/utils/ProjectTreeBuilder.java:15-46 | the root is the project folder; walking the path of every file named by its path succeeds; sibling names are distinct when every file is so named; when moreover no path is a prefix of (or equal to) another, each file's path leads to a node carrying that file's name, type, path, content and language |
| ProjectTree.RouteStep | backend/src/main/java/com/dbarchitect/backend/utils/ProjectTreeBuilder.java:32-40 | a node appended by the inner loop is reached along the walked segments and its own name |
| ProjectTree.PlacedBefore | backend/src/main/java/com/dbarchitect/backend/utils/ProjectTreeBuilder.java:19-32 | when the paths are apart, the next file's path cannot yet be walked |
| ProjectTree.PlacedStep | backend/src/main/java/com/dbarchitect/backend/utils/ProjectTreeBuilder.java:19-44 | inserting a file keeps every node on an inserted file's path and every inserted file at the end of its path |
| ProjectTree.PathNotYetWalked | backend/src/main/java/com/dbarchitect/backend/utils/ProjectTreeBuilder.java:19-32 | before a file is inserted, its path cannot be walked when no path is a prefix of another, so the file itself is appended |
| ProjectTree.RoutesStep | backend/src/main/java/com/dbarchitect/backend/utils/ProjectTreeBuilder.java:19-44 | after each insertion every node but the root lies on the path of a file inserted so far |
| ProjectTree.FilesPlacedStep | backend/src/main/java/com/dbarchitect/backend/utils/ProjectTreeBuilder.java:19-44 | inserting a file leaves every earlier file at the end of its path, its entry unchanged |
| ProjectTree.WalkRoute | backend/src/main/java/com/dbarchitect/backend/utils/ProjectTreeBuilder.java:25-42 | a walk from the root ends at the node reached by exactly the walked names |
| ProjectTree.AddChildRouted | backend/src/main/java/com/dbarchitect/backend/utils/ProjectTreeBuilder.java:40 | an appended child is reached by its parent's names followed by its own |
| ProjectTree.NewRouteOnRoute | backend/src/main/java/com/dbarchitect/backend/utils/ProjectTreeBuilder.java:32-40 | a node appended at depth i is reached along the first i segments, then its own name |
| ProjectTree.OnRoutePrefix | backend/src/main/java/com/dbarchitect/backend/utils/ProjectTreeBuilder.java:32-40 | for a file named by its last segment, every node created for it is reached along a prefix of its path |
| ProjectTree.FilesFoundStep | backend/src/main/java/com/dbarchitect/backend/utils/ProjectTreeBuilder.java:19-44 | inserting a file keeps every earlier file reachable and makes the new one reachable |
| ProjectTree.Tree.constructor | backend/src/main/java/com/dbarchitect/backend/utils/ProjectTreeBuilder.java:17 | the root alone: a folder whose name and path are the project name |
| ProjectTree.Tree.Insert | backend/src/main/java/com/dbarchitect/backend/utils/ProjectTreeBuilder.java:20-43 | a path already present changes nothing; otherwise folders along the path, then the file, are appended; the file is reached by its path; sibling names stay distinct |
| ProjectTree.ProgressStart | backend/src/main/java/com/dbarchitect/backend/utils/ProjectTreeBuilder.java:21-22 | the walk starts at the root with the project name as path |
| ProjectTree.StepFound | backend/src/main/java/com/dbarchitect/backend/utils/ProjectTreeBuilder.java:29-42 | an existing child is followed and nothing is added |
| ProjectTree.StepCreate | backend/src/main/java/com/dbarchitect/backend/utils/ProjectTreeBuilder.java:32-42 | a missing segment appends the file at the last segment or a folder elsewhere, and the walk continues there |
| ProjectTree.ProgressDone | backend/src/main/java/com/dbarchitect/backend/utils/ProjectTreeBuilder.java:25-43 | what one file's walk leaves behind |
| ProjectTree.FindIn | backend/src/main/java/com/dbarchitect/backend/utils/ProjectTreeBuilder.java:97-102 | `findChild`: the first child with that name, or none exactly when no child has it |
| ProjectTree.AddChild | backend/src/main/java/com/dbarchitect/backend/utils/ProjectTreeBuilder.java:40 | the node is appended at the end of the parent's children; every other node is unchanged |
| ProjectTree.FindInAppend | backend/src/main/java/com/dbarchitect/backend/utils/ProjectTreeBuilder.java:40-102 | appending children never changes which earlier child is found first |
| ProjectTree.FindInSameNames | backend/src/main/java/com/dbarchitect/backend/utils/ProjectTreeBuilder.java:97-102 | the search depends only on the children's names |
| ProjectTree.FindChildPersists | backend/src/main/java/com/dbarchitect/backend/utils/ProjectTreeBuilder.java:40-102 | a child found once is still found after the tree grows |
| ProjectTree.WalkPersists | backend/src/main/java/com/dbarchitect/backend/utils/ProjectTreeBuilder.java:25-43 | a path that can be walked leads to the same node after the tree grows |
| ProjectTree.WalkPrefix | backend/src/main/java/com/dbarchitect/backend/utils/ProjectTreeBuilder.java:25-43 | every prefix of a walkable path is walkable |
| ProjectTree.WalkSnoc | backend/src/main/java/com/dbarchitect/backend/utils/ProjectTreeBuilder.java:25-30 | walking one more segment is one more `findChild` |
| ProjectTree.AddChildGrows | backend/src/main/java/com/dbarchitect/backend/utils/ProjectTreeBuilder.java:40 | appending a new childless node keeps child indices in range and only grows the tree |
| ProjectTree.AddChildFinds | backend/src/main/java/com/dbarchitect/backend/utils/ProjectTreeBuilder.java:40-102 | the appended node is what `findChild` then finds |
| ProjectTree.AppendWalk | backend/src/main/java/com/dbarchitect/backend/utils/ProjectTreeBuilder.java:32-42 | the walk reaches the node just appended |
| ProjectTree.AddChildDistinct | backend/src/main/java/com/dbarchitect/backend/utils/ProjectTreeBuilder.java:30-41 | appending only where no child has the name keeps sibling names distinct |
| ProjectTree.FolderPathSnoc | backend/src/main/java/com/dbarchitect/backend/utils/ProjectTreeBuilder.java:27 | each segment appends "/" and itself to the path |
| ProjectTree.FolderPathJoin | backend/src/main/java/com/dbarchitect/backend/utils/ProjectTreeBuilder.java:22-38 | a folder at depth i has path project name + "/" + its segments joined by "/" |
| ProjectTree.JoinSnoc | backend/src/main/java/com/dbarchitect/backend/utils/ProjectTreeBuilder.java:27 | joining one more segment appends the separator and it |
| ProjectTree.NewFolderOnPath | backend/src/main/java/com/dbarchitect/backend/utils/ProjectTreeBuilder.java:37-38 | a folder created at depth i is named by segment i and carries the path up to it |
| ProjectTree.FoldersKept | backend/src/main/java/com/dbarchitect/backend/utils/ProjectTreeBuilder.java:40 | appending keeps the folders created along the path |
| ProjectTree.ArchiveFileNamedByPath | backend/src/main/java/com/dbarchitect/backend/utils/ProjectTreeBuilder.java:60-78 | every file entry of an archive gives a file named by the last segment of its path |
| ProjectTree.FileNameIsLastPart | backend/src/main/java/com/dbarchitect/backend/utils/ProjectTreeBuilder.java:20-74 | the name after the last "/" is the last piece of Java's split of the path |
| ProjectTree.DetectLanguage | backend/src/main/java/com/dbarchitect/backend/utils/ProjectTreeBuilder.java:87-95 | one of java, xml, sql, yaml, json, text |
| ProjectTree.DetectLanguageSuffixes | backend/src/main/java/com/dbarchitect/backend/utils/ProjectTreeBuilder.java:87-95 | each language exactly when its lower-cased suffix is present, "text" exactly when none is |
| ProjectTree.EndsWithAt | backend/src/main/java/com/dbarchitect/backend/utils/ProjectTreeBuilder.java:89-93 | a text ending with a suffix has the suffix's characters at its end |
| ProjectTree.DetectLanguageIgnoresCase | backend/src/main/java/com/dbarchitect/backend/utils/ProjectTreeBuilder.java:88 | the language does not depend on the name's case |
| MainService.FieldMapOf | backend/src/main/java/com/dbarchitect/backend/services/MainService.java:152-161 | the map's keys are exactly the declared names |
| MainService.ExtractFields | backend/src/main/java/com/dbarchitect/backend/services/MainService.java:152-161 | the loop computes `FieldMapOf` of the declarations in order |
| MainService.LastDeclarationWins | backend/src/main/java/com/dbarchitect/backend/services/MainService.java:155-158 | a name declared more than once maps to its last declaration's type |
| MainService.CompareCode | backend/src/main/java/com/dbarchitect/backend/services/MainService.java:121-150 | the two passes compute `CompareFields` |
| MainService.FirstPassSound | backend/src/main/java/com/dbarchitect/backend/services/MainService.java:133-140 | each first-pass change is the ADDED or MODIFIED change of a distinct new field |
| MainService.FirstPassComplete | backend/src/main/java/com/dbarchitect/backend/services/MainService.java:133-140 | every new field that is added or retyped is reported |
| MainService.SecondPassFacts | backend/src/main/java/com/dbarchitect/backend/services/MainService.java:143-147 | the second pass reports REMOVED exactly for old names absent from the new map, once each |
| MainService.CompareFieldsComplete | backend/src/main/java/com/dbarchitect/backend/services/MainService.java:133-147 | every added, retyped and removed field yields its ADDED, MODIFIED or REMOVED change |
| MainService.CompareFieldsSound | backend/src/main/java/com/dbarchitect/backend/services/MainService.java:133-147 | every change is of kind FIELD and is one of those three, for a field in that situation |
| MainService.CompareFieldsOrder | backend/src/main/java/com/dbarchitect/backend/services/MainService.java:133-147 | no name appears in two changes, and every REMOVED change comes after all the others |
| MainService.FirstPassUnchanged | backend/src/main/java/com/dbarchitect/backend/services/MainService.java:133-140 | the first pass over identical maps reports nothing |
| MainService.SecondPassUnchanged | backend/src/main/java/com/dbarchitect/backend/services/MainService.java:143-147 | the second pass over identical maps reports nothing |
| MainService.CompareSameFieldsIsEmpty | backend/src/main/java/com/dbarchitect/backend/services/MainService.java:121-150 | comparing a field map with itself yields no change |
| MainService.FileNameBehindDirectory | backend/src/main/java/com/dbarchitect/backend/services/MainService.java:62 | a directory prefix ending in "/" does not change the file name |
| MainService.PreviewFileName | backend/src/main/java/com/dbarchitect/backend/services/MainService.java:59-62 | the preview names a file after what follows the last "/" of its generated path |
| CodeGenerationModal.FileType | frontend/src/components/CodeGenerationModal.tsx:24-30 | the tag is one of Model, Repository, Controller, DTO, or File |
| CodeGenerationModal.FirstHit | frontend/src/components/CodeGenerationModal.tsx:25-28 | the first keyword the name contains, none contained before it; none exactly when it contains none |
| CodeGenerationModal.FileTypeIsFirstHit | frontend/src/components/CodeGenerationModal.tsx:24-30 | the tag is that of the first keyword hit, in the order model, repository, controller, dto; "File" exactly when none hits |
| CodeGenerationModal.FileTypeModelFirst | frontend/src/components/CodeGenerationModal.tsx:25-28 | a name holding both "dto" and "model" is tagged Model |
| CodeGenerationModal.LexLessIrreflexive | frontend/src/components/CodeGenerationModal.tsx:35 | no text sorts before itself |
| CodeGenerationModal.LexLessTrichotomy | frontend/src/components/CodeGenerationModal.tsx:35-37 | of two different texts exactly one sorts first |
| CodeGenerationModal.LexLessTransitive | frontend/src/components/CodeGenerationModal.tsx:35 | string order is transitive |
| CodeGenerationModal.Compare | frontend/src/components/CodeGenerationModal.tsx:32-38 | the comparator returns -1, 0 or 1 |
| CodeGenerationModal.CompareConsistent | frontend/src/components/CodeGenerationModal.tsx:32-38 | the comparator is antisymmetric, returns 0 exactly for equal lower-cased names, and is transitive |
| CodeGenerationModal.SortedPairwise | frontend/src/components/CodeGenerationModal.tsx:32-38 | in a list sorted pair by pair, every earlier file compares at most equal to every later one |
| CodeGenerationModal.SortedFiles | frontend/src/components/CodeGenerationModal.tsx:32-38 | the copy is sorted by lower-cased name and is a permutation of the files; the files themselves are untouched |
| CodeGenerationModal.InsertAt | frontend/src/components/CodeGenerationModal.tsx:32-38 | one insertion step extends the sorted prefix by one element and permutes the array |
| CodeGenerationModal.InsertStart | frontend/src/components/CodeGenerationModal.tsx:32 | an insertion starts with the new element at the end of the sorted prefix |
| CodeGenerationModal.SwapStep | frontend/src/components/CodeGenerationModal.tsx:35-36 | swapping an out-of-order pair moves the new element one place down |
| CodeGenerationModal.InsertDone | frontend/src/components/CodeGenerationModal.tsx:35-37 | an element at rest leaves the longer prefix sorted |
| CodeGenerationModal.SidebarLabel | frontend/src/components/CodeGenerationModal.tsx:85 | the label holds no "/" |
| CodeGenerationModal.SidebarLabelIsLastSegment | frontend/src/components/CodeGenerationModal.tsx:85 | the label is the whole name when it has no "/", else the name is a prefix, "/" and the label; the label is the name the backend gives the same path |
| CodeGenerationModal.LabelAfterLastSlash | frontend/src/components/CodeGenerationModal.tsx:85 | the label is what follows the last "/" |
| CodeGenerationModal.CutAt | frontend/src/components/CodeGenerationModal.tsx:85 | a text splits at a "/" into prefix, "/" and rest |
| CodeGenerationModal.EntryOf | frontend/src/components/CodeGenerationModal.tsx:70-85 | a button is highlighted exactly when its index is the active tab |
| CodeGenerationModal.EntriesOf | frontend/src/components/CodeGenerationModal.tsx:69-87 | one button per sorted file, in order |
| CodeGenerationModal.PaneOf | frontend/src/components/CodeGenerationModal.tsx:92-102 | "No file selected." exactly when the active tab indexes no sorted file; otherwise that file's viewer |
| CodeGenerationModal.Modal.constructor | frontend/src/components/CodeGenerationModal.tsx:13-14 | the modal opens on tab 0 with its files sorted |
| CodeGenerationModal.Modal.FilesChanged | frontend/src/components/CodeGenerationModal.tsx:16-32 | a non-empty new list resets the tab to 0, an empty one leaves it; the sorted copy follows the new list |
| CodeGenerationModal.Modal.SelectTab | frontend/src/components/CodeGenerationModal.tsx:72 | clicking a button makes its index active and changes nothing else |
| CodeGenerationModal.Modal.Content | frontend/src/components/CodeGenerationModal.tsx:22 | a closed modal renders nothing |
| CodeGenerationModal.Modal.ShowsSelected | frontend/src/components/CodeGenerationModal.tsx:69-102 | an open modal with files highlights exactly one button and shows that file; with none it shows "No file selected." |
| Text.TrimIsSlice | frontend/src/services/dbmlParser.ts:25 | `trim` returns a contiguous slice of its input |
| Text.TrimPadded | backend/src/main/java/com/dbarchitect/backend/utils/DBMLCode.java:37 | trimming ignores white space added on either side |
| Text.SplitOn | frontend/src/services/dbmlParser.ts:21 | `split('\n')` gives at least one piece and no piece holds the separator |
| Text.JoinSplitOn | frontend/src/services/dbmlParser.ts:21 | joining the pieces with the separator gives back the text |
| Text.SplitOnLast | frontend/src/components/CodeGenerationModal.tsx:85 | the last piece is what follows the last separator |
| Text.JavaSplit | backend/src/main/java/com/dbarchitect/backend/utils/ProjectTreeBuilder.java:20 | Java's split: no piece holds the separator and trailing empty pieces are dropped |
| Text.JavaSplitLast | backend/src/main/java/com/dbarchitect/backend/utils/ProjectTreeBuilder.java:20 | for a text not ending in the separator, Java's last piece is what follows the last separator |
| Text.IndexOf | backend/src/main/java/com/dbarchitect/backend/utils/DBMLCode.java:17-20 | `indexOf` returns -1 or an occurrence at or after the start, with no earlier one |
| Text.LastIndexOfChar | backend/src/main/java/com/dbarchitect/backend/services/MainService.java:62 | `lastIndexOf('/')` is an occurrence with none after it |
| Text.LastIndexOfCharUnique | backend/src/main/java/com/dbarchitect/backend/services/MainService.java:62 | the occurrence with none after it is the last one |
| Text.Lower | frontend/src/components/CodeGenerationModal.tsx:33-34 | lower-casing acts character by character and keeps the length |
| Text.NatToString | frontend/src/hooks/useBackend.ts:45 | the decimal form of a status is non-empty |
| Text.NatToStringInjective | frontend/src/hooks/useBackend.ts:45 | different statuses print differently |

## Left out

- The graph layout library (dagre) is not part of this model. The centres it
  computes are an input map, and nodes without a centre are excluded by
  `SchemaGraph.ApplyLayout`'s precondition.
- The smooth-step path (`getSmoothStepPath`) and the label position are not
  modelled. Only the sides and the attachment points are.
- React state, effects, rendering and styling are not modelled.
  `CodeGenerationModal.Modal` keeps the modal's state as fields.
  - `sortedFiles` is a field recomputed by `FilesChanged` rather than on every
    render.
  - `sortedFiles[activeTab] ? … : …` is modelled as the check that the index
    names a file, since a generated file object is always truthy.
- `fetch`, `localStorage`, JSON decoding and `console` are not modelled. The
  HTTP reply is an input record to the outcome functions.
- FreeMarker rendering (`renderFile`) is not modelled. A generated file is its
  path and the data model it is rendered from.
- The backend's external DBML parser (`DbmlParser.parse`, the schema lookup) is
  not part of this model. `CodeGenerator` takes its tables and relationships as
  records. Only index 0 of a relationship's columns is used, as in the
  code, and `WellFormed` asks for that column to exist, since `get(0)` throws
  otherwise.
- JavaParser (`StaticJavaParser.parse` and `findAll`) is not part of this
  model. `MainService.ExtractFields` takes the declared (name, type) pairs in
  document order.
- The iteration order of a Java `HashMap` is an input. `MainService.CompareCode`
  takes the new map's entries and the old map's keys as sequences that list
  each entry once.
- Archive streams (`ZipInputStream`, byte buffers, UTF-8 decoding) are not
  modelled. `ProjectTree.ArchiveFile` covers how each entry is named and what
  language it gets; the stream handling around it is left out.
- `MainService.generateProjectPreview(String)` calls
  `codeGenerator.generateFilesFromDbml`, which does not exist in CodeGenerator.
  Only its path and file-name derivation is modelled (`MainService.PreviewFileName`).
- `MainService.detectLanguage` is identical to ProjectTreeBuilder's and is
  modelled once, by `ProjectTree.DetectLanguage`.
- Object identity is not modelled. `ProjectTree` holds nodes in an arena, and a
  child is an index into it. A flat file's own `children` list is not modelled:
  the file node is appended childless.
- ProjectTree.BuildTree: that a file's path leads to that file is stated only
  when no path is a prefix of, or equal to, another. Otherwise the walk can end
  at a folder or at the node of another file.
- ProjectTree.BuildTree: the reachability and sibling-distinctness promises are
  stated for files whose name is the last segment of their path, as every
  archive entry's is (`ProjectTree.ArchiveFileNamedByPath`); other callers are
  not covered.
- JavaScript `toLowerCase`, Java `toLowerCase`/`toUpperCase` and
  `StringUtils.capitalize` are modelled on ASCII letters only. Two exceptions:
  - JavaScript lower-cases the Kelvin sign to "k"; the `pk` test of
    `DbmlParser` handles it.
  - `equalsIgnoreCase` against the ASCII type names of `mapSqlToJavaType` is
    exact: besides ASCII letters it folds the four characters whose case maps
    onto an ASCII letter (dotless i, dotted capital I, long s, Kelvin sign).

  Full Unicode case mapping is not modelled otherwise.
- `columnMap` is a plain JavaScript object, and the model treats it as a map
  holding only the declared columns. Two inputs make the code throw instead:
  - an `indexes` line with `[pk]` that names an undeclared `Object.prototype`
    member (`constructor`, `toString`) finds an inherited function, whose
    missing `attributes` makes `includes` throw a TypeError;
  - a column named `__proto__` makes that column the map's prototype, so a
    `[pk]` name such as `name` or `type` then finds a string and throws the
    same way.

  In these cases `parseDBML` throws, while the model ignores the name.
- Floating-point arithmetic in `SchemaGraph` and `SmartEdge` is modelled with
  `real`, so rounding is not captured.
- CodeGenerationModal.SortedFiles: `Array.prototype.sort` is stable, and the
  contract does not state stability. It states sortedness by the comparator
  and the permutation.
- JavaScript's `<` on strings compares UTF-16 code units. It is modelled as
  lexicographic order on characters, which agrees for characters of the Basic
  Multilingual Plane.
