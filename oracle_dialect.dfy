/**
 * The Oracle pagination dialect: wraps a query in a two-level ROWNUM
 * subquery and recovers the query's output column names for the outer
 * select list, falling back to "*" whenever they cannot be recovered.
 *
 * The SQL parser is a foreign library; it is modelled by its possible
 * outcomes (ParseOutcome) and passed in as a pure function of the text.
 */
module OracleDialect {
  import opened Wrappers
  import opened SqlText

  /** The expression of a projection item, as far as the dialect looks at it. */
  datatype Expr =
    | ColumnRef(columnName: string)      // net.sf.jsqlparser.schema.Column
    | FunctionCall(functionName: string) // net.sf.jsqlparser.expression.Function
    | OtherExpr                          // literals, arithmetic, CASE, subqueries ...

  /** One entry of a select list. */
  datatype SelectItem =
    | ExpressionItem(alias: Option<string>, expression: Expr) // SelectExpressionItem
    | OtherItem                                               // `*`, `t.*`: any other SelectItem

  /** What parsing the original SQL yields, up to the casts the dialect performs. */
  datatype ParseOutcome =
    | ParseError                          // the parser threw
    | NonSelect                           // a Statement that is not a Select
    | SelectNonPlain                      // a Select whose body is not a PlainSelect (UNION, ...)
    | PlainSelect(items: seq<SelectItem>) // a plain SELECT and its select items

  /** The statement handed back to the host: the SQL and its two bind values, in placeholder order. */
  datatype DialectModel = DialectModel(sql: string, firstParam: Long, secondParam: Long)

  const ASTERISK: string := "*"
  const COMMA: string := ","

  // Java long.
  const LONG_MIN: int := -0x8000_0000_0000_0000
  const LONG_MAX: int := 0x7fff_ffff_ffff_ffff
  type Long = x: int | LONG_MIN <= x <= LONG_MAX

  /** Two's-complement wrap-around of a mathematical integer into a long. */
  function WrapLong(x: int): (r: Long)
    ensures (r - x) % 0x1_0000_0000_0000_0000 == 0
    ensures LONG_MIN <= x <= LONG_MAX ==> r == x
  {
    (x - LONG_MIN) % 0x1_0000_0000_0000_0000 + LONG_MIN
  }

  // ---------------------------------------------------------------------
  // Projection names (getAliasList)
  // ---------------------------------------------------------------------

  /**
   * The output name one select item contributes: its alias if it has one,
   * otherwise the name of the column or function it is, otherwise none.
   * OtherItem has none either; the loop treats it as a failed cast.
   */
  function ItemName(item: SelectItem): (r: Option<string>)
    ensures r.Some? <==> (item.ExpressionItem? &&
                          (item.alias.Some? || item.expression.ColumnRef? || item.expression.FunctionCall?))
    ensures item.ExpressionItem? && item.alias.Some? ==> r == item.alias
    ensures r.Some? && item.alias.None? ==>
      r.value == (if item.expression.ColumnRef? then item.expression.columnName
                  else item.expression.functionName)
  {
    match item
    case OtherItem => None
    case ExpressionItem(alias, expression) =>
      if alias.Some? then alias
      else match expression
        case ColumnRef(name) => Some(name)
        case FunctionCall(name) => Some(name)
        case OtherExpr => None
  }

  /** The names of the named items, in order; unnamed items contribute nothing. */
  function Names(items: seq<SelectItem>): (r: seq<string>)
    ensures |r| <= |items|
  {
    if items == [] then []
    else Names(items[..|items| - 1]) + ItemName(items[|items| - 1]).ToSeq()
  }

  predicate AllExpressionItems(items: seq<SelectItem>)
  {
    forall i :: 0 <= i < |items| ==> items[i].ExpressionItem?
  }

  /** getAliasList as a value: None when the cast of some item throws. */
  function AliasList(items: seq<SelectItem>): (r: Option<seq<string>>)
    ensures r.None? <==> exists i :: 0 <= i < |items| && items[i].OtherItem?
    ensures r.Some? ==> r.value == Names(items)
  {
    if AllExpressionItems(items) then Some(Names(items)) else None
  }

  /** How many entries the items before position i contribute. */
  function Rank(items: seq<SelectItem>, i: nat): nat
    requires i <= |items|
  {
    |Names(items[..i])|
  }

  lemma {:induction false} NamesAppend(a: seq<SelectItem>, b: seq<SelectItem>)
    ensures Names(a + b) == Names(a) + Names(b)
    decreases |b|
  {
    if b == [] {
      assert a + b == a;
    } else {
      var ab := a + b;
      var b' := b[..|b| - 1];
      assert ab[..|ab| - 1] == a + b';
      assert ab[|ab| - 1] == b[|b| - 1];
      NamesAppend(a, b');
    }
  }

  /** Every named item has its entry, at its rank, and takes exactly one slot. */
  lemma NamesEntryAt(items: seq<SelectItem>, i: nat)
    requires i < |items| && ItemName(items[i]).Some?
    ensures Rank(items, i) < |Names(items)|
    ensures Names(items)[Rank(items, i)] == ItemName(items[i]).value
    ensures Rank(items, i + 1) == Rank(items, i) + 1
  {
    assert items == items[..i] + [items[i]] + items[i + 1..];
    NamesAppend(items[..i] + [items[i]], items[i + 1..]);
    NamesAppend(items[..i], [items[i]]);
    assert items[..i + 1] == items[..i] + [items[i]];
    assert Names([items[i]]) == ItemName(items[i]).ToSeq() by {
      assert [items[i]][..0] == [];
    }
  }

  /** An unnamed item takes no slot. */
  lemma UnnamedItemSkipped(items: seq<SelectItem>, i: nat)
    requires i < |items| && ItemName(items[i]).None?
    ensures Rank(items, i + 1) == Rank(items, i)
  {
    assert items[..i + 1][..i] == items[..i];
  }

  /** Ranks never decrease along the items, and the last rank is the length of the list. */
  lemma RankMonotone(items: seq<SelectItem>, i: nat, j: nat)
    requires i <= j <= |items|
    ensures Rank(items, i) <= Rank(items, j)
    ensures Rank(items, |items|) == |Names(items)|
  {
    assert items[..j] == items[..i] + items[i..j];
    NamesAppend(items[..i], items[i..j]);
    assert items[..|items|] == items;
  }

  /** Every entry of the list comes from a named item whose rank is its position. */
  lemma {:induction false} NamesEntryOrigin(items: seq<SelectItem>, k: nat)
    requires k < |Names(items)|
    ensures exists i :: 0 <= i < |items| && ItemName(items[i]) == Some(Names(items)[k])
                        && Rank(items, i) == k
    decreases |items|
  {
    var init := items[..|items| - 1];
    var last := |items| - 1;
    if k < |Names(init)| {
      NamesEntryOrigin(init, k);
      var i :| 0 <= i < |init| && ItemName(init[i]) == Some(Names(init)[k]) && Rank(init, i) == k;
      assert init[..i] == items[..i];
      assert items[i] == init[i];
      assert ItemName(items[i]) == Some(Names(items)[k]);
    } else {
      assert init == items[..last];
      assert ItemName(items[last]).Some? && Rank(items, last) == k;
    }
  }

  /** The list holds one entry per item, exactly when every item is named. */
  lemma {:induction false} NamesCoverAll(items: seq<SelectItem>)
    ensures |Names(items)| == |items| <==> forall i :: 0 <= i < |items| ==> ItemName(items[i]).Some?
    decreases |items|
  {
    if items != [] {
      var init := items[..|items| - 1];
      NamesCoverAll(init);
      assert forall i :: 0 <= i < |init| ==> init[i] == items[i];
      var tail := ItemName(items[|items| - 1]).ToSeq();
      assert |Names(items)| == |Names(init)| + |tail|;
    }
  }

  /**
   * getAliasList (OracleDialect.java:79-97): walks the select items in
   * order, appending the name each one contributes; a non-expression item
   * makes the cast throw, which abandons the whole list.
   */
  method GetAliasList(selectItems: seq<SelectItem>) returns (r: Option<seq<string>>)
    ensures r == AliasList(selectItems)
    ensures r.None? <==> exists i :: 0 <= i < |selectItems| && selectItems[i].OtherItem?
  {
    var aliasList: seq<string> := [];
    for i := 0 to |selectItems|
      invariant forall j :: 0 <= j < i ==> selectItems[j].ExpressionItem?
      invariant aliasList == Names(selectItems[..i])
    {
      assert selectItems[..i + 1][..i] == selectItems[..i];
      match selectItems[i]
      case OtherItem =>
        return None;
      case ExpressionItem(alias, expression) =>
        if alias.Some? {
          aliasList := aliasList + [alias.value];
        } else if expression.ColumnRef? {
          aliasList := aliasList + [expression.columnName];
        } else if expression.FunctionCall? {
          aliasList := aliasList + [expression.functionName];
        }
    }
    assert selectItems[..|selectItems|] == selectItems;
    return Some(aliasList);
  }

  // ---------------------------------------------------------------------
  // Column string (getColumnsByOriginalSql)
  // ---------------------------------------------------------------------

  /** The outer select list for a parse outcome: the joined names, or "*". */
  function ColumnSql(outcome: ParseOutcome): (r: string)
    ensures !outcome.PlainSelect? ==> r == ASTERISK
    ensures outcome.PlainSelect? && !AllExpressionItems(outcome.items) ==> r == ASTERISK
    ensures outcome.PlainSelect? && AllExpressionItems(outcome.items) ==>
      r == (if Names(outcome.items) == [] then ASTERISK else Join(Names(outcome.items), COMMA))
  {
    match outcome
    case PlainSelect(items) =>
      (match AliasList(items)
       case Some(names) => if |names| > 0 then Join(names, COMMA) else ASTERISK
       case None => ASTERISK)
    case _ => ASTERISK
  }

  /**
   * When the names carry no comma, the column string reads back as exactly
   * the name list: one comma fewer than names, the names in order.
   */
  lemma ColumnSqlReadsBack(items: seq<SelectItem>)
    requires AllExpressionItems(items) && Names(items) != []
    requires forall k :: 0 <= k < |Names(items)| ==> ',' !in Names(items)[k]
    ensures Split(ColumnSql(PlainSelect(items)), ',') == Names(items)
    ensures CountChar(ColumnSql(PlainSelect(items)), ',') == |Names(items)| - 1
  {
    SplitJoin(Names(items), ',');
  }

  /**
   * getColumnsByOriginalSql (OracleDialect.java:62-77): starts from "*",
   * and replaces it by the joined alias list only when the parse gives a
   * plain select, no item cast fails and the list is not empty.
   */
  method GetColumnsByOriginalSql(parse: string -> ParseOutcome, originalSql: string)
    returns (columnSql: string)
    ensures columnSql == ColumnSql(parse(originalSql))
  {
    columnSql := ASTERISK;
    var outcome := parse(originalSql);
    if outcome.PlainSelect? {
      var aliasList := GetAliasList(outcome.items);
      if aliasList.Some? && |aliasList.value| > 0 {
        columnSql := Join(aliasList.value, COMMA);
      }
    }
  }

  // ---------------------------------------------------------------------
  // The paginated statement (buildPaginationSql)
  // ---------------------------------------------------------------------

  /** The upper ROWNUM bound: offset + limit (in long arithmetic) once there is an offset. */
  function FirstBound(offset: Long, limit: Long): (r: Long)
    ensures offset < 1 ==> r == limit
    ensures offset >= 1 && offset + limit <= LONG_MAX ==> r == offset + limit
    ensures offset >= 1 && offset + limit > LONG_MAX ==> r == offset + limit - 0x1_0000_0000_0000_0000
  {
    if offset >= 1 then WrapLong(offset + limit) else limit
  }

  function SqlPrefix(columns: string): string
  {
    "SELECT " + columns + " FROM ( SELECT TMP.*, ROWNUM ROW_ID FROM ( "
  }

  function SqlSuffix(firstMark: string, secondMark: string): string
  {
    " ) TMP WHERE ROWNUM <=" + firstMark + ") WHERE ROW_ID > " + secondMark
  }

  /**
   * buildPaginationSql (OracleDialect.java:48-54). firstMark and secondMark
   * are the placeholder constants of the dialect interface. The ensures only
   * fix the shape of the result; what it means is proved in OriginalSqlEmbedded,
   * PlaceholderCount, ExactlyTwoPlaceholders and, for the bind values,
   * RownumWindow.BuiltStatementSelectsPage.
   */
  function BuildPaginationSql(parse: string -> ParseOutcome, originalSql: string,
                              offset: Long, limit: Long,
                              firstMark: string, secondMark: string): (m: DialectModel)
    ensures m.secondParam == offset
    ensures m.firstParam == FirstBound(offset, limit)
    ensures m.sql == SqlPrefix(ColumnSql(parse(originalSql))) + originalSql + SqlSuffix(firstMark, secondMark)
  {
    var columns := ColumnSql(parse(originalSql));
    DialectModel(SqlPrefix(columns) + originalSql + SqlSuffix(firstMark, secondMark),
                 FirstBound(offset, limit), offset)
  }

  /** The query inside the template, when sql has the template's shape around it. */
  function UnwrapOriginalSql(sql: string, columns: string, firstMark: string, secondMark: string)
    : Option<string>
  {
    var p := SqlPrefix(columns);
    var s := SqlSuffix(firstMark, secondMark);
    if |p| + |s| <= |sql| && sql[..|p|] == p && sql[|sql| - |s|..] == s
    then Some(sql[|p|..|sql| - |s|])
    else None
  }

  /**
   * The original SQL sits verbatim between the fixed prefix and suffix.
   * A direct corollary of the template's shape: the prefix, which holds the
   * column string, and the suffix are known, so stripping them is exact.
   */
  lemma OriginalSqlEmbedded(parse: string -> ParseOutcome, originalSql: string,
                            offset: Long, limit: Long, firstMark: string, secondMark: string)
    ensures UnwrapOriginalSql(BuildPaginationSql(parse, originalSql, offset, limit, firstMark, secondMark).sql,
                              ColumnSql(parse(originalSql)), firstMark, secondMark)
            == Some(originalSql)
  {
  }

  /**
   * Extracting columns again from the embedded query gives the same column
   * string. A corollary of OriginalSqlEmbedded: the embedded text is the
   * original query, and the parser is a function of the text.
   */
  lemma ColumnExtractionStable(parse: string -> ParseOutcome, originalSql: string,
                               offset: Long, limit: Long, firstMark: string, secondMark: string)
    ensures var inner := UnwrapOriginalSql(
              BuildPaginationSql(parse, originalSql, offset, limit, firstMark, secondMark).sql,
              ColumnSql(parse(originalSql)), firstMark, secondMark);
            inner.Some? && ColumnSql(parse(inner.value)) == ColumnSql(parse(originalSql))
  {
    OriginalSqlEmbedded(parse, originalSql, offset, limit, firstMark, secondMark);
  }

  /**
   * Occurrences of a character absent from the fixed template text: those of
   * the column string, the original SQL and the two marks, nothing else.
   */
  lemma PlaceholderCount(parse: string -> ParseOutcome, originalSql: string,
                         offset: Long, limit: Long, firstMark: string, secondMark: string, c: char)
    requires c !in SqlPrefix("") && c !in SqlSuffix("", "")
    ensures CountChar(BuildPaginationSql(parse, originalSql, offset, limit, firstMark, secondMark).sql, c)
            == CountChar(ColumnSql(parse(originalSql)), c) + CountChar(originalSql, c)
               + CountChar(firstMark, c) + CountChar(secondMark, c)
  {
    var columns := ColumnSql(parse(originalSql));
    var t0 := "SELECT ";
    var t1 := " FROM ( SELECT TMP.*, ROWNUM ROW_ID FROM ( ";
    var t2 := " ) TMP WHERE ROWNUM <=";
    var t3 := ") WHERE ROW_ID > ";
    assert SqlPrefix("") == t0 + t1 && SqlSuffix("", "") == t2 + t3;
    assert c !in t0 && c !in t1 && c !in t2 && c !in t3;
    var sql := BuildPaginationSql(parse, originalSql, offset, limit, firstMark, secondMark).sql;
    assert sql == t0 + columns + t1 + originalSql + t2 + firstMark + t3 + secondMark;
    CountCharAppend(t0 + columns + t1 + originalSql + t2 + firstMark + t3, secondMark, c);
    CountCharAppend(t0 + columns + t1 + originalSql + t2 + firstMark, t3, c);
    CountCharAppend(t0 + columns + t1 + originalSql + t2, firstMark, c);
    CountCharAppend(t0 + columns + t1 + originalSql, t2, c);
    CountCharAppend(t0 + columns + t1, originalSql, c);
    CountCharAppend(t0 + columns, t1, c);
    CountCharAppend(t0, columns, c);
  }

  /**
   * With both marks a single placeholder character that neither the query
   * nor its column names contain, the statement holds exactly two placeholders.
   */
  lemma ExactlyTwoPlaceholders(parse: string -> ParseOutcome, originalSql: string,
                               offset: Long, limit: Long, mark: char)
    requires mark !in SqlPrefix("") && mark !in SqlSuffix("", "")
    requires mark !in originalSql && mark !in ColumnSql(parse(originalSql))
    ensures CountChar(BuildPaginationSql(parse, originalSql, offset, limit, [mark], [mark]).sql, mark) == 2
  {
    PlaceholderCount(parse, originalSql, offset, limit, [mark], [mark], mark);
  }
}
