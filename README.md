# Oracle pagination dialect of the MyBatis-Plus pagination plugin

`OracleDialect` turns a query into a paginated one for Oracle, which has no
LIMIT/OFFSET clause in its older versions. It wraps the query in two
sub-selects:

    SELECT <columns> FROM ( SELECT TMP.*, ROWNUM ROW_ID FROM ( <query> ) TMP
      WHERE ROWNUM <=<FIRST_MARK>) WHERE ROW_ID > <SECOND_MARK>

It returns the SQL together with two bind values. The first is `offset + limit`,
or just `limit` when there is no offset. The second is `offset`. The outer
select list `<columns>` is recovered from the query's own projection by the
JSqlParser library: each item contributes its alias, else its column name, else
its function name, else nothing. The names are joined with commas. Whenever this
cannot be done, the select list falls back to `*`.

Files:

- `wrappers.dfy`: `Option`, used for Java null and for "this step threw".
- `sql_text.dfy`: `String.join`, and two readings of a joined string used to
  state what the join yields (split at a character; count a character).
- `oracle_dialect.dfy`: the dialect. `GetAliasList` and
  `GetColumnsByOriginalSql` are the source's two imperative methods. Each is proved
  equal to a function (`AliasList`, `ColumnSql`), and the lemmas are stated
  about those functions. `BuildPaginationSql` is a function over `ColumnSql`.
- `rownum_window.dfy`: the meaning of the emitted statement. Oracle's ROWNUM
  numbering and the two filters are modelled over a sequence of rows. The lemma
  proves that the dialect's bind values select exactly "skip offset, take limit".

The parser is a foreign library. It is modelled by its possible outcomes
(`ParseOutcome`: parse error, statement that is not a `Select`, `Select`
whose body is not a `PlainSelect`, plain select with its items). It is passed in
as a pure function `parse: string -> ParseOutcome`. A select item is either
a `SelectExpressionItem`, with an optional alias and an expression (column,
function or other), or any other kind (`*`, `t.*`). Casting the other kind
at line 83 throws.

Java `long` is the subset type `Long`. The sum `offset + limit` wraps
around explicitly, in two's complement (`WrapLong`).

For `SELECT * FROM t` the `*` item is not a `SelectExpressionItem`, so the
cast at line 83 throws and the catch leaves `*`. The result comes from the
exception path, not from an empty name list. One such item anywhere in the list
(`SELECT t.*, a AS x FROM t`) discards every other name.

## Model

| member | source | states |
|---|---|---|
| OracleDialect.ItemName | mybatis-plus-extension/src/main/java/com/baomidou/mybatisplus/extension/plugins/pagination/dialects/OracleDialect.java:84-94 | an item contributes a name exactly when it is an expression item with an alias, a column or a function; the alias wins over the expression; without an alias the name is the column's or the function's own |
| OracleDialect.Names | mybatis-plus-extension/src/main/java/com/baomidou/mybatisplus/extension/plugins/pagination/dialects/OracleDialect.java:80-96 | the alias list never has more entries than there are select items |
| OracleDialect.NamesAppend | mybatis-plus-extension/src/main/java/com/baomidou/mybatisplus/extension/plugins/pagination/dialects/OracleDialect.java:82-95 | the names of a concatenation of item lists are the names of the first followed by the names of the second (the walk preserves order) |
| OracleDialect.NamesEntryAt | mybatis-plus-extension/src/main/java/com/baomidou/mybatisplus/extension/plugins/pagination/dialects/OracleDialect.java:86-94 | every named item has its name in the list, at the position given by the number of named items before it, and takes exactly one slot |
| OracleDialect.UnnamedItemSkipped | mybatis-plus-extension/src/main/java/com/baomidou/mybatisplus/extension/plugins/pagination/dialects/OracleDialect.java:88-94 | an item without alias, column or function takes no slot |
| OracleDialect.RankMonotone | mybatis-plus-extension/src/main/java/com/baomidou/mybatisplus/extension/plugins/pagination/dialects/OracleDialect.java:82-95 | entry positions never decrease along the items; the last position is the list's length |
| OracleDialect.NamesEntryOrigin | mybatis-plus-extension/src/main/java/com/baomidou/mybatisplus/extension/plugins/pagination/dialects/OracleDialect.java:82-95 | every entry of the list is the name of some item, and that item's position among the named items is the entry's index |
| OracleDialect.NamesCoverAll | mybatis-plus-extension/src/main/java/com/baomidou/mybatisplus/extension/plugins/pagination/dialects/OracleDialect.java:82-95 | the list has one entry per item exactly when every item has an alias, a column or a function |
| OracleDialect.AliasList | mybatis-plus-extension/src/main/java/com/baomidou/mybatisplus/extension/plugins/pagination/dialects/OracleDialect.java:79-97 | the result of the walk: absent (the cast throws) exactly when some item is not an expression item, otherwise the ordered name list |
| OracleDialect.GetAliasList | mybatis-plus-extension/src/main/java/com/baomidou/mybatisplus/extension/plugins/pagination/dialects/OracleDialect.java:79-97 | the loop yields the ordered name list of the items; it fails (the cast throws) exactly when some item is not an expression item |
| OracleDialect.ColumnSql | mybatis-plus-extension/src/main/java/com/baomidou/mybatisplus/extension/plugins/pagination/dialects/OracleDialect.java:62-77 | the column string is "*" for a parse error, a non-Select, a non-PlainSelect body, any non-expression item or an empty name list; otherwise it is the names joined by "," |
| OracleDialect.ColumnSqlReadsBack | mybatis-plus-extension/src/main/java/com/baomidou/mybatisplus/extension/plugins/pagination/dialects/OracleDialect.java:70-71 | when no name contains a comma, splitting the column string at commas gives back the name list, and it holds exactly one comma fewer than names |
| OracleDialect.GetColumnsByOriginalSql | mybatis-plus-extension/src/main/java/com/baomidou/mybatisplus/extension/plugins/pagination/dialects/OracleDialect.java:62-77 | the method (start from "*", overwrite only on full success) computes the column string of the parse outcome; it has no failure path |
| OracleDialect.WrapLong | mybatis-plus-extension/src/main/java/com/baomidou/mybatisplus/extension/plugins/pagination/dialects/OracleDialect.java:50 | long addition: the result is congruent to the sum modulo 2^64 and equals it when it fits |
| OracleDialect.FirstBound | mybatis-plus-extension/src/main/java/com/baomidou/mybatisplus/extension/plugins/pagination/dialects/OracleDialect.java:50 | the first bind value is limit when offset < 1, offset + limit when offset >= 1 and the sum fits, and the sum less 2^64 when it overflows |
| OracleDialect.BuildPaginationSql | mybatis-plus-extension/src/main/java/com/baomidou/mybatisplus/extension/plugins/pagination/dialects/OracleDialect.java:48-54 | total for every query text; the second bind value is offset unchanged, the first is FirstBound; the SQL is the fixed prefix with the column string, the query, then the fixed suffix with the two marks |
| OracleDialect.OriginalSqlEmbedded | mybatis-plus-extension/src/main/java/com/baomidou/mybatisplus/extension/plugins/pagination/dialects/OracleDialect.java:51-52 | removing the prefix and the suffix from the built SQL gives back the original query verbatim |
| OracleDialect.ColumnExtractionStable | mybatis-plus-extension/src/main/java/com/baomidou/mybatisplus/extension/plugins/pagination/dialects/OracleDialect.java:49-52 | extracting columns again from the query embedded in the built SQL gives the same column string as from the original |
| OracleDialect.PlaceholderCount | mybatis-plus-extension/src/main/java/com/baomidou/mybatisplus/extension/plugins/pagination/dialects/OracleDialect.java:51-52 | any character absent from the template text occurs in the built SQL exactly as often as in the column string, the query and the two marks together |
| OracleDialect.ExactlyTwoPlaceholders | mybatis-plus-extension/src/main/java/com/baomidou/mybatisplus/extension/plugins/pagination/dialects/OracleDialect.java:51-53 | with one-character marks that neither the query nor its column names contain, the built SQL holds exactly two marks |
| SqlText.Join | mybatis-plus-extension/src/main/java/com/baomidou/mybatisplus/extension/plugins/pagination/dialects/OracleDialect.java:71 | String.join: no parts give the empty string; otherwise the result starts with the first part and ends with the last, the separator between neighbours (read back by SplitJoin) |
| SqlText.SplitJoin | mybatis-plus-extension/src/main/java/com/baomidou/mybatisplus/extension/plugins/pagination/dialects/OracleDialect.java:71 | joining a non-empty list with a one-character separator that no part contains is undone by splitting at that separator |
| SqlText.JoinSeparatorCount | mybatis-plus-extension/src/main/java/com/baomidou/mybatisplus/extension/plugins/pagination/dialects/OracleDialect.java:71 | such a join of n parts holds exactly n - 1 separators |
| RownumWindow.RownumFilterPrefix | mybatis-plus-extension/src/main/java/com/baomidou/mybatisplus/extension/plugins/pagination/dialects/OracleDialect.java:51-52 | the inner query (ROWNUM <= bound, with Oracle's counter advancing only on accepted rows) keeps the first bound rows, numbered 1, 2, ... |
| RownumWindow.RowIdFilterSuffix | mybatis-plus-extension/src/main/java/com/baomidou/mybatisplus/extension/plugins/pagination/dialects/OracleDialect.java:52 | the outer filter ROW_ID > lower, on consecutively numbered rows, drops exactly the first rows up to number lower |
| RownumWindow.PaginationSelectsPage | mybatis-plus-extension/src/main/java/com/baomidou/mybatisplus/extension/plugins/pagination/dialects/OracleDialect.java:50-53 | for non-negative offset and limit whose sum fits in a long, the statement with bind values (FirstBound, offset) returns exactly rows offset .. offset + limit - 1 of the query, cut to its length |
| RownumWindow.NegativeOffsetReadsFromStart | mybatis-plus-extension/src/main/java/com/baomidou/mybatisplus/extension/plugins/pagination/dialects/OracleDialect.java:50-53 | for a negative offset the first bind value is limit and the statement returns the first limit rows, as for offset 0 |
| RownumWindow.OverflowGivesEmptyPage | mybatis-plus-extension/src/main/java/com/baomidou/mybatisplus/extension/plugins/pagination/dialects/OracleDialect.java:50-52 | when offset >= 1 and offset + limit overflows a long, the first bind value is negative and the statement returns no rows |
| RownumWindow.BuiltStatementSelectsPage | mybatis-plus-extension/src/main/java/com/baomidou/mybatisplus/extension/plugins/pagination/dialects/OracleDialect.java:48-54 | the bind values of the built statement select that page of the query's rows |

## Left out

- The JSqlParser library (`CCJSqlParserManager.parse`, `getSelectBody`, the class hierarchy, lines 65-68). It is foreign code, so its result is an input value of type `ParseOutcome`, produced by a parameter function.
- Null results from the library (a null select body, a null item list, an alias or column whose name is null). Their exceptions end in the same catch, but the model has no null values. A null name would be joined as the text "null", and that is not modelled either.
- The debug log in the catch (line 74). It has no effect on the result.
- `DialectModel` and `setConsumerChain` (line 53). These are the host framework's parameter binding. The result is the triple `DialectModel(sql, firstParam, secondParam)`.
- The values of `FIRST_MARK` and `SECOND_MARK`. The `IDialect` interface is not part of this model, so they are parameters.
- RownumWindow.PaginationSelectsPage: stated only for non-negative offset and limit whose sum fits in a long. Callers are not modelled, and `buildPaginationSql` accepts any pair of longs. Where offset >= 1 and the sum overflows, `OverflowGivesEmptyPage` applies; a negative offset with a non-negative limit is covered by `NegativeOffsetReadsFromStart`. A negative limit is not covered (`Page` takes naturals).
- RownumWindow.PaginatedRows: the outer query's rows are kept in the inner numbering order. Without an outer ORDER BY, Oracle fixes which rows `ROW_ID > ?` keeps but not the order it returns them in, so the sequence equality of `PaginationSelectsPage` rests on that assumption; the set of rows does not.
- OracleDialect.BuildPaginationSql: total for the modelled parse outcomes. `ParseError` stands for an `Exception` thrown by the parser; the catch at line 73 does not catch a Java `Error` (such as `StackOverflowError` on deeply nested input), which would escape the method and is not modelled.
- Oracle's naming of result columns (for example, an unaliased `COUNT(*)`). Whether the outer select list names real columns of the inner query is not modelled. The same goes for items the walk skips, which leave the outer list shorter than the query's own.
