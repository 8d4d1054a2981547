# eslint-plugin-sqlite, modelled in Dafny

eslint-plugin-sqlite checks `db.prepare(...)` calls on better-sqlite3 databases. It reads the
query text at the call site and asks SQLite and a small Rust/WebAssembly parser about the
query. Then it checks, and rewrites, the two TypeScript type arguments of `prepare`:
- the input type: the bind parameters;
- the result type: the row shape.

This project models the logic of that plugin that does not depend on an engine:

- **Column kinds** (`column_kinds.dfy`, `type_nodes.dfy`). `ColumnType` is the bit-flag set
  Unknown, Number, String, Buffer, Null, Any. `TypeNode` covers the TypeScript type syntax the
  rules read and write, and `TypeText` prints it.
- **Result inference** (`infer_query_result.dfy`). `inferQueryResult` turns the prepared
  statement's column descriptors into `ColumnInfo` entries:
  - the affinity CASE chain on the declared type;
  - the Null bit for nullable columns;
  - unattributable columns become Unknown;
  - a missing metadata row is an error;
  - the entries are collected into a `Map` keyed by column name. The loop is proved against a
    fold, and the map's first-insertion order against `Dedup`.
- **The `typed-result` rule** (`typed_result.dfy`):
  - `countBitsSet` (on `bv32`);
  - the node/kind compatibility test and the declared-type matcher;
  - `columnTypeToJSType` (a method proved against the list of spellings);
  - `columnsToObjectLiteralText`;
  - the `getDeclaredType` search;
  - the rule body: the annotation loop runs over an array the method updates in place, and
    the rule produces a report and a fix.

  The main round trip: applying the fix and checking again gives no report.
- **The `typed-input` rule** (`typed_input.dfy`):
  - `queryInputToText`;
  - `isDeclaredTypeCorrect` and its search loops (methods proved against predicates);
  - the user-declared-types map filled member by member;
  - the rule body.

  Round trip: the rendered input type is accepted by `isDeclaredTypeCorrect`. The `RangeError`
  that `new Array(n)` throws when there are more names than slots is the rule's error outcome.
- **The Rust parser helpers**:
  - `parse_query_parameters` (`parameters.dfy`): names de-duplicated after the prefix is
    stripped, and the count reduced with `u32` wrap-around;
  - `does_all_named_parameters_start_with_prefix` (`prefix.dfy`);
  - `is_column_nullable` with `get_used_table_name`, `test_expr` and `expr_matches_name`
    (`nullable.dfy`), on a syntax tree of the statement;
  - the `Query` object of `query.rs` (`query.dfy`): a class with two push-only vectors, the
    UTF-8 encoding of `p4`, and the flattening of the explain result into `i32` triples.
- **Call-site helpers** (`utils.dfy`): `stringifyNode`, `getQueryValue` and
  `isVariableParameterExpression`. typescript-eslint's static evaluation and variable lookup
  are parameters of these functions.
- **The database cache** of `createSqlitePlugin` (`plugin.dfy`): a class whose map gains
  entries call by call. It is proved against a step function that keeps every entry and
  opens each path at most once.

Three helper modules are shared by the others:
- `Wrappers`: `Option` and `Result`;
- `Texts`: `join`, `trim`, `LIKE '%x%'`, counting characters;
- `Seqs`: order-preserving de-duplication.

Where the code and the design description of the project differ, the model follows the code:
- A column is NOT NULL only by its `notnull` flag; a rowid alias gets no exemption
  (src/inferQueryResult.ts:62-65).
- There is no bytecode refinement pass after inference.
- A missing metadata row throws instead of giving Unknown (src/inferQueryResult.ts:58-60).
- A union declaration matches when each of its members names some kind of the column. It
  need not name every kind (src/rules/typed-result.ts:287-295), as
  `TypedResult.UnionNeedNotNameEveryKind` shows.

## Model

| member | source | states |
|---|---|---|
| ColumnKinds.SizeOneIffSingle | src/rules/typed-result.ts:288-297 | "exactly one bit set" is the same as being one of the six single kinds |
| TypeNodes.QuotedKey | src/rules/typed-result.ts:241 | the key the fixes write is the name between double quotes, unescaped; it reads back as the name exactly when the name holds no quote, backslash or line break |
| TypedResult.CountBitsSet | src/rules/typed-result.ts:252-257 | the SWAR bit count of the 32-bit value equals the number of kinds in the set |
| TypedResult.IsTypeNodeCompatible | src/rules/typed-result.ts:190-214 | a type node is compatible exactly when it names a kind (`unknown`, `null`, `number`, `string`, an identifier reference `Buffer`) that the column holds |
| TypedResult.DoesDeclaredTypeMatchColumn | src/rules/typed-result.ts:283-302 | a union matches iff the column has more than one kind and every union member names a kind the column holds; any other declaration matches iff it names exactly the column's single kind |
| TypedResult.UnionNeedNotNameEveryKind | src/rules/typed-result.ts:287-295 | `number` or `null` as a union is accepted for a number/string/null column |
| TypedResult.UnfoldTypeParts | src/rules/typed-result.ts:216-236 | the spelling list is the five optional pushes in the fixed order unknown, number, string, Buffer, null |
| TypedResult.ColumnTypeToJSType | src/rules/typed-result.ts:216-236 | the method that pushes onto `typeParts` returns the spellings joined by the union separator |
| TypedResult.TypePartsCount | src/rules/typed-result.ts:216-236 | one spelling per set bit, except the Any bit, which emits nothing |
| TypedResult.TypePartsSpellHeldKinds | src/rules/typed-result.ts:216-236 | a kind's spelling appears iff the column holds that kind |
| TypedResult.TypePartsOrdered | src/rules/typed-result.ts:216-236 | the spellings appear in strictly increasing fixed order, hence without repeats |
| TypedResult.TypePartsEmpty | src/rules/typed-result.ts:216-236 | the text is empty exactly for 0 and for Any alone |
| TypedResult.CanonicalNodeText | src/rules/typed-result.ts:216-236 | the canonical type node prints as the joined spellings |
| TypedResult.CanonicalNodeMatches | src/rules/typed-result.ts:216-236 | the canonical rendering of any non-empty kind without Any is accepted by the matcher |
| TypedResult.AnyKindRenderingRejected | src/rules/typed-result.ts:216-236 | a strict ANY column renders as "" and a nullable one as "null", and the matcher rejects the latter for its own column |
| TypedResult.ColumnsToObjectLiteralText | src/rules/typed-result.ts:238-250 | the text is the printed type literal with one member per column in column order: the quoted name, then the user annotation verbatim if there is one, else ": " and the canonical type |
| TypedResult.DeclaredType | src/rules/typed-result.ts:259-281 | the annotation of the first annotated property signature whose key is the column name, none iff no member declares it |
| TypedResult.GetDeclaredType | src/rules/typed-result.ts:259-281 | the search loop with early return computes `DeclaredType` |
| TypedResult.AnnotateColumns | src/rules/typed-result.ts:130-158 | the loop leaves the array annotated and `isValid` true iff the member count fits and every column has a matching (or, for Unknown, any) declaration |
| TypedResult.CheckResultType | src/rules/typed-result.ts:40-172 | the rule body yields the report of `ResultRule`: no columns, missing, extraneous or incorrect result type, with its fix |
| TypedResult.ResultRule | src/rules/typed-result.ts:44-171 | nothing without an inference; "extraneous" exactly for no columns and two or more type arguments; "missing" exactly for columns and fewer than two; "incorrect" exactly when the second argument is not a type literal or fails the annotation loop |
| TypedResult.FixedTypeArguments | src/rules/typed-result.ts:68-171 | applying the fix leaves at least two type arguments with the rendered result type second |
| TypedResult.ResultFixText | src/rules/typed-result.ts:68-171 | each fix's text is the printed fix node, wrapped as `<[], …>`, prefixed by ", ", or alone, by case |
| TypedResult.FixMemberFound | src/rules/typed-result.ts:259-281 | with distinct names that need no escaping, looking a column up in the rendered literal finds its own member |
| TypedResult.ResultFixNodeValid | src/rules/typed-result.ts:130-158 | the rendered literal passes the annotation loop |
| TypedResult.ResultFixAccepted | src/rules/typed-result.ts:160-171 | after the fix is applied, the rule reports nothing |
| TypedResult.InferredFixAccepted | src/inferQueryResult.ts:39-69 | for the columns the inference returns, none of them a strict ANY and no name needing escaping, the applied fix is accepted; distinctness of the names comes from the inference itself |
| TypedResult.RemoveResultParamAccepted | src/rules/typed-result.ts:49-66 | with no columns the report is "extraneous" for two or more type arguments, and removing the second argument silences it exactly when there were two |
| TypedResult.AnnotatedOrLifted | src/rules/typed-result.ts:143-148 | the fix keeps each column's name and kind and changes only Unknown columns |
| InferQueryResult.Affinity | src/inferQueryResult.ts:18-37 | the CASE chain yields one kind, never Unknown or Null, and Any only for "ANY" on a strict table |
| InferQueryResult.AnyAffinity | src/inferQueryResult.ts:31-32 | "ANY" is Any on a strict table and Number otherwise |
| InferQueryResult.IntWins | src/inferQueryResult.ts:22 | a declared type containing INT (case-insensitively) is Number whatever else it contains |
| InferQueryResult.ColumnKindOf | src/inferQueryResult.ts:48-65 | unattributable columns are Unknown; a missing metadata row is an error; otherwise the affinity, plus Null iff not NOT NULL |
| InferQueryResult.MapSet | src/inferQueryResult.ts:62-65 | `Map.set` keeps the key order and appends new keys, and only the set key's value changes |
| InferQueryResult.Collect | src/inferQueryResult.ts:45-66 | the collected entries have distinct names |
| InferQueryResult.InferSpec | src/inferQueryResult.ts:39-69 | a query that does not prepare is an error, and a successful result has pairwise distinct column names |
| InferQueryResult.CollectPrefixFails | src/inferQueryResult.ts:58-60 | once a column fails, the whole inference fails with that error |
| InferQueryResult.Entries | src/inferQueryResult.ts:68 | `Array.from` of the map lists each key in order with its value |
| InferQueryResult.MapSetEntries | src/inferQueryResult.ts:45-68 | a `set` on the (order, map) pair the loop keeps is `MapSet` on the listed entries |
| InferQueryResult.InferQueryResult | src/inferQueryResult.ts:39-69 | the loop over the columns that updates the map computes the fold `InferSpec` |
| InferQueryResult.CollectFailsIff | src/inferQueryResult.ts:53-60 | inference fails iff some attributable column has no metadata row, and then with that error |
| InferQueryResult.CollectNames | src/inferQueryResult.ts:45-68 | the result's names are the column names de-duplicated in first-occurrence order |
| InferQueryResult.CollectKindIsLast | src/inferQueryResult.ts:62-65 | a repeated name carries the kind of its last column |
| InferQueryResult.CollectKindsFromColumns | src/inferQueryResult.ts:47-66 | every result kind is the kind of some column of that name |
| InferQueryResult.InferredColumnsRenderable | src/inferQueryResult.ts:39-69 | without strict ANY columns, every inferred kind is Unknown or a non-empty set without Any |
| TypedInput.SomeMemberNamed | src/rules/typed-input.ts:172-179 | the `some` search finds a property signature keyed by the name |
| TypedInput.CoversAllNames | src/rules/typed-input.ts:171-183 | the loop holds iff every name has a member |
| TypedInput.IsDeclaredTypeCorrect | src/rules/typed-input.ts:149-246 | the four cases: `[]`; an object literal of exactly the names; a tuple of `unknown`s; a tuple of `unknown`s then an object literal |
| TypedInput.DeclaredTypeCorrect | src/rules/typed-input.ts:149-246 | an accepted declaration for a query without names is a tuple of exactly `count` `unknown`s; with names and slots it holds an object literal with one member per name covering every name, itself or as a tuple element |
| TypedInput.FirstLiteralMembers | src/rules/typed-input.ts:72-80 | the members of the first type literal among the tuple's elements, if any |
| TypedInput.CollectUserDeclaredTypes | src/rules/typed-input.ts:82-106 | the loop of `set`s builds `UserDeclaredTypes`, the empty map when there are no members |
| TypedInput.UserDeclaredTypesLastWins | src/rules/typed-input.ts:84-105 | a name is mapped iff some annotated property signature declares it, and to the text of the last one |
| TypedInput.CheckInputType | src/rules/typed-input.ts:40-117 | the rule body yields `InputRule`: missing or incorrect input type with its fix, or the RangeError |
| TypedInput.InputRule | src/rules/typed-input.ts:40-117 | silent iff there is no inference or the first argument is correct; throws iff there are slots, more names than slots and no correct first argument; "missing" iff there is no type argument |
| TypedInput.Unknowns | src/rules/typed-input.ts:141 | `new Array(n).fill("unknown")` as type nodes |
| TypedInput.QueryInputToText | src/rules/typed-input.ts:134-147 | the text cannot be built (the RangeError) exactly when there are slots but more names than slots |
| TypedInput.ObjectNodeText | src/rules/typed-input.ts:143 | the object text is the printed node: each name quoted, with its user annotation if present, else ": unknown" |
| TypedInput.UnknownsText | src/rules/typed-input.ts:141 | n `unknown` nodes print as n "unknown" texts |
| TypedInput.InputFixNodeText | src/rules/typed-input.ts:134-147 | `queryInputToText` is the printed fix node in all four cases |
| TypedInput.MixedTupleText | src/rules/typed-input.ts:145 | the mixed case is the `unknown`s joined by ", " and then the object literal, in brackets |
| TypedInput.ObjectNodeCovers | src/rules/typed-input.ts:163-186 | the rendered object literal has one member per name and covers every name |
| TypedInput.InputFixNodeAccepted | src/rules/typed-input.ts:149-246 | whenever the text can be rendered, the rendered input type is accepted |
| TypedInput.InputFixAccepted | src/rules/typed-input.ts:45-117 | the rule does not throw, applying its fix silences it, and the fix text is the rendered node |
| TypedInput.MoreNamesThanSlotsThrows | src/rules/typed-input.ts:144-146 | more names than slots makes `new Array` throw |
| ParameterNames.StripPrefix | parser/src/parameters.rs:30 | the name is the raw name without its one prefix character |
| ParameterNames.StrippedNames | parser/src/parameters.rs:27-30 | each raw name stripped, in order |
| ParameterNames.ParseQueryParameters | parser/src/parameters.rs:19-39 | a result iff the statement parsed; its names are distinct and no more than the raw names |
| ParameterNames.NamesInFirstOccurrenceOrder | parser/src/parameters.rs:27-33 | the names keep the order of their first occurrence |
| ParameterNames.NamesAreStrippedNames | parser/src/parameters.rs:27-33 | a name is in the result iff some raw name strips to it |
| ParameterNames.CountDropsByDuplicates | parser/src/parameters.rs:36 | without wrap-around, the count drops by the number of names that collapsed |
| ParameterNames.CountCoversNames | parser/src/parameters.rs:36 | if every raw name had its own slot, every distinct name still has one |
| ParameterNames.CollapsesPrefixes | parser/src/parameters.rs:19-39 | `$bar`, `:bar`, `@bar` in three slots become one name `bar` in one slot |
| ParameterNames.UnparsedHasNoShape | parser/src/parameters.rs:20-25 | a statement that does not parse gives none |
| ParameterPrefix.AllStartWith | parser/src/prefix.rs:16 | `all` holds iff every name starts with the prefix character |
| ParameterPrefix.DoesAllNamedParametersStartWithPrefix | parser/src/prefix.rs:9-17 | none iff unparsed; true iff every raw name starts with the prefix |
| ParameterPrefix.NoNamesPass | parser/src/prefix.rs:16 | a statement without named parameters passes |
| ParameterPrefix.OtherPrefixFails | parser/src/prefix.rs:16 | `:id` fails the prefix `@` |
| Nullable.JoinedUsedName | parser/src/nullable.rs:71-95 | the name used for the first inner-like join of the table, no earlier inner-like join naming it; none iff there is no such join |
| Nullable.GetUsedTableName | parser/src/nullable.rs:55-98 | the alias (or name) of the FROM table if it is the table, else exactly `JoinedUsedName` of the joins; none iff neither names it |
| Nullable.Agree | parser/src/nullable.rs:164-175 | OR gives a verdict only when both sides give the same one |
| Nullable.Common | parser/src/nullable.rs:178-185 | a parenthesised list gives the verdict every element shares, none for mismatches or `()` |
| Nullable.JoinVerdict | parser/src/nullable.rs:34-47 | the verdict of the first inner-like ON join that reaches one, no earlier join reaching one; none iff no join reaches one |
| Nullable.ComparisonForcesNotNull | parser/src/nullable.rs:102-115 | a comparison with the column on either side proves it NOT NULL |
| Nullable.IsNullForms | parser/src/nullable.rs:125-157 | `c IS NULL` and `NULL IS c` prove NULL; `IS NOT NULL` both ways and `NOTNULL` prove NOT NULL |
| Nullable.ListAndPatternForms | parser/src/nullable.rs:116-124 | `c IN (...)` and `LIKE` with the column on either side prove NOT NULL, and nothing else does for these forms |
| Nullable.Combinators | parser/src/nullable.rs:158-176 | AND takes the first verdict; OR only a shared one |
| Nullable.ParenthesizedForms | parser/src/nullable.rs:177-185 | parentheses pass through a common verdict, and `()` gives none |
| Nullable.TestExpr | parser/src/nullable.rs:100-191 | a verdict is reached only for an expression that mentions the column as a name the analysis recognises |
| Nullable.QualifierMustBeUsedName | parser/src/nullable.rs:193-199 | with `FROM foo f`, `foo.id IS NOT NULL` proves nothing and `f.id IS NOT NULL` proves NOT NULL |
| Nullable.WhereThenJoins | parser/src/nullable.rs:25-48 | a WHERE verdict wins; when WHERE gives none the result is exactly `JoinVerdict` over the joins, and none without joins |
| Nullable.OuterJoinNotSearched | parser/src/nullable.rs:71-95 | a table reached only by an outer join is not found |
| Nullable.IsColumnNullable | parser/src/nullable.rs:14-48 | a verdict needs a parsed SELECT with a FROM clause that contains the table |
| ExplainQuery.EncodeChar | parser/src/query.rs:56 | one to four bytes, a single byte exactly for ASCII, continuation bytes in 0x80..0xBF |
| ExplainQuery.DecodeEncodeChar | parser/src/query.rs:56 | the bytes of a character decode back to it |
| ExplainQuery.Utf8Encode | parser/src/query.rs:56 | the encoding has between one and four bytes per character |
| ExplainQuery.AsciiBytes | parser/src/query.rs:56 | ASCII text is stored byte for byte |
| ExplainQuery.StatusCode | parser/src/query.rs:12-16 | the status discriminants are 0..2 |
| ExplainQuery.JSTypeCode | parser/src/query.rs:4-9 | the kind discriminants are 0..3 |
| ExplainQuery.CodesRoundTrip | parser/src/query.rs:93 | the discriminants read back as the values they encode |
| ExplainQuery.Status | parser/src/query.rs:73-77 | `Some(true)` is Null, `Some(false)` NotNull, `None` Unknown |
| ExplainQuery.JSType | parser/src/query.rs:79-91 | only NULL, TEXT and BLOB have their own kind; all other data types are numbers |
| ExplainQuery.IndexAsI32 | parser/src/query.rs:93 | `index as i32` is the index itself below 2^31 |
| ExplainQuery.EncodeTriples | parser/src/query.rs:66-97 | three integers per zipped column: index, nullability, kind, up to the shorter list |
| ExplainQuery.TriplesDecode | parser/src/query.rs:66-97 | each triple decodes back to its column's index, nullability and kind |
| ExplainQuery.EncodeExplain | parser/src/query.rs:66-101 | none exactly when the analysis fails, else three integers per zipped column |
| ExplainQuery.Query.constructor | parser/src/query.rs:27-32 | both vectors start empty |
| ExplainQuery.Query.AddTableBlockColumn | parser/src/query.rs:34-44 | appends one table-block row and leaves the program alone |
| ExplainQuery.Query.AddProgramStep | parser/src/query.rs:46-57 | appends one step with `p4` as its UTF-8 bytes and leaves the table-block rows alone |
| ExplainQuery.Query.Explain | parser/src/query.rs:59-101 | the analysis of the collected rows and the query, none on error, else the triples |
| CallSite.StringifyMemberChain | src/utils.ts:10-18 | a chain of identifiers `a.b.c` renders as its names joined by "." |
| CallSite.NestedMemberName | src/utils.ts:10-18 | `nested.db.users` renders as "nested.db.users" |
| CallSite.IsVariableParameterExpression | src/utils.ts:68-123 | a non-optional `join` call with a first argument that trims to "," on a non-optional `map` call whose first argument is an arrow function with a body that trims to "?" |
| CallSite.StringifyNode | src/utils.ts:3-23 | a name exists iff the node is built from identifiers by member access; `this`, calls and private names give null |
| CallSite.RecognisesMapJoin | src/utils.ts:68-123 | `x.map(() => body).join(sep)` with literals is recognised iff `sep` trims to "," and `body` trims to "?" |
| CallSite.PaddedMapJoinRecognised | src/utils.ts:85-120 | `x.map(() => " ? ").join(" , ")` is recognised, the padding being trimmed |
| CallSite.RejectsIncompleteMapJoin | src/utils.ts:69-79 | a join without an argument, or an optional `?.` join call, is not recognised |
| CallSite.GetQueryValue | src/utils.ts:28-66 | a static value is returned before any other form is tried, and without one only templates and identifiers give a value |
| CallSite.TemplatePlaceholders | src/utils.ts:37-42 | an accepted template's text has one "?" per embedded expression beside those in its quasis |
| CallSite.TemplateRejected | src/utils.ts:37-45 | one embedded expression that is not a placeholder list rejects the template |
| CallSite.IdentifierFollowsConst | src/utils.ts:47-60 | an identifier gives the value of its const initializer and nothing without one |
| Plugin.Step | src/index.ts:24-58 | after a call the options key holds the returned database, no earlier entry is removed or rebound, and earlier opens are kept |
| Plugin.CachedKeySkipsCallback | src/index.ts:27-33 | a key hit returns the cached database, changes nothing, and does not depend on the user callback |
| Plugin.UserDatabaseCachedUnderKeyOnly | src/index.ts:35-39 | a database object from the user is stored under the options key only, and nothing is opened |
| Plugin.CachedPathShared | src/index.ts:41-52 | a cached path binds the options key to that same database, and nothing is opened |
| Plugin.NewPathOpened | src/index.ts:55-58 | an uncached path is opened once and stored under both the key and the path |
| Plugin.FileUrlStringsConverted | src/index.ts:41-44 | a `file://` string is converted like a URL, and a plain path is kept |
| Plugin.StepKeepsValid | src/index.ts:21-58 | the empty cache is consistent and every call keeps it so |
| Plugin.ValidOpensDistinct | src/index.ts:55-57 | a consistent cache has opened no path twice |
| Plugin.EachPathOpenedOnce | src/index.ts:21-58 | over any series of calls, each distinct path is opened at most once |
| Plugin.DatabaseCache.constructor | src/index.ts:21 | the cache starts empty |
| Plugin.DatabaseCache.GetDatabase | src/index.ts:24-59 | the method updates the map in place exactly as `Step` says and keeps the cache consistent |

## Left out

- SQLite itself. The columns of the prepared statement, the `pragma_table_info` row of each column and the strictness of each table are inputs (`Schema`). A prepare failure is the `None` input of `InferSpec`, and `db.prepare(query)` is not modelled.
- The `sqlite3_parser` lexer, parser and `ParameterInfo` collection. The statement trees and the raw `(count, names)` are inputs.
- sqlx's `explain` bytecode analysis. It is a function parameter of `Query.Explain`.
- The ESLint and typescript-eslint machinery, as follows:
  - rule creation, selectors and `context.report`;
  - fixer ranges: a fix is modelled as its kind and replacement text;
  - `getScope`, `getStaticValue`, `findVariable` and `getStringIfConstant`, which are the `Env` parameter of `CallSite`;
  - TypeScript parsing of the fixed source: round trips are stated on the printed type node.
- `src/rules/valid-query.ts`, `src/rules/parameter-prefix.ts` and `src/inferQueryInput.ts`. They are reporting wrappers around a `try`/`catch` of `db.prepare` and the parser calls. `valid-query.ts` also imports a `makeRuleListener` that is not defined in the repository.
- The plugin object, its `meta`, and the recommended configuration of src/index.ts:62-87.
- `JSON.stringify` of the options, the user callback and `fileURLToPath`. They are the `Hooks` of `Plugin`. An exception from `fileURLToPath` or from opening the file is not modelled.
- Identity of JavaScript objects: a database is a value (`UserDatabase`, `OpenedDatabase`). A database object is always truthy, so a cache lookup hits exactly when the key is present.
- CallSite.GetQueryValue: a chain of `const` initializers longer than `fuel` gives `None`, where the source would follow it (or overflow the stack on a cycle).
- CallSite.PropertyNameOf: a computed property is read only when its static value is a string. `getStringIfConstant` turns other constants into strings too, so `x[["map"]](…)[["join"]](",")`, whose array keys stringify to "map" and "join", is recognised by the source and not by the model.
- TypedResult.ResultFixAccepted: assumes distinct column names, names that need no escaping, and no Any bit on a column that is not Unknown. Distinct names hold for every inference result, since `inferQueryResult` collects the columns into a `Map` (`TypedResult.InferredFixAccepted` discharges it). The rendered type of a strict ANY column is not accepted by the matcher (`TypedResult.AnyKindRenderingRejected`), and a name holding a quote, backslash or line break is written unescaped (`TypeNodes.QuotedKey`), so the round trip does not hold there.
- TypedResult.InferredFixAccepted: stated for inferences without strict ANY columns and for column names that need no escaping, for the two reasons above.
- TypeNodes.QuotedKey: a key that is a string literal with escape sequences is not decoded; it reads as having no constant. Only names holding a quote, backslash or line break are affected, and those never read back as themselves.
- TypedInput.InputFixAccepted: stated for `count >= names.length` and for names that need no escaping. For fewer slots than names, `new Array` throws instead (`TypedInput.MoreNamesThanSlotsThrows`). A name holding a quote, backslash or line break is written unescaped (`TypeNodes.QuotedKey`) and does not read back.
- ParameterNames.ParseQueryParameters: the `u32` subtraction is modelled with wrap-around (a release build). A debug build would panic instead.
- The rowid NOT NULL exemption, the refinement by WHERE clauses and literal typing are absent from this version of `inferQueryResult`. They are not modelled.
