/**
 * What the statement built by the Oracle dialect selects. The inner query
 * numbers rows with ROWNUM and stops at the first bound. The outer query
 * keeps the rows whose number is above the second bound. Together they
 * select the page: skip offset rows, then take up to limit rows.
 */
module RownumWindow {
  import opened OracleDialect

  /** max(0, min(x, hi)) */
  function Clamp(x: int, hi: nat): (r: nat)
    ensures r <= hi
    ensures 0 <= x <= hi ==> r == x
  {
    if x < 0 then 0 else if x > hi then hi else x
  }

  /**
   * `SELECT TMP.*, ROWNUM ROW_ID FROM (rows) TMP WHERE ROWNUM <= bound`.
   * Oracle gives each candidate row the next ROWNUM and tests the condition.
   * Only a row that passes keeps its number, and only then does the counter advance.
   */
  function RownumFilter<R>(rows: seq<R>, next: int, bound: int): seq<(int, R)>
  {
    if rows == [] then []
    else if next <= bound then [(next, rows[0])] + RownumFilter(rows[1..], next + 1, bound)
    else RownumFilter(rows[1..], next, bound)
  }

  /** `SELECT ... FROM (numbered) WHERE ROW_ID > lower`. */
  function RowIdFilter<R>(numbered: seq<(int, R)>, lower: int): seq<R>
  {
    if numbered == [] then []
    else (if numbered[0].0 > lower then [numbered[0].1] else []) + RowIdFilter(numbered[1..], lower)
  }

  /** The rows the paginated statement returns, given its two bind values. */
  function PaginatedRows<R>(rows: seq<R>, firstParam: int, secondParam: int): seq<R>
  {
    RowIdFilter(RownumFilter(rows, 1, firstParam), secondParam)
  }

  /** The reference page: skip offset rows, then take up to limit rows. */
  function Page<R>(rows: seq<R>, offset: nat, limit: nat): seq<R>
  {
    rows[Clamp(offset, |rows|)..Clamp(offset + limit, |rows|)]
  }

  /** The inner query keeps a prefix of the rows and numbers it consecutively from next. */
  lemma {:induction false} RownumFilterPrefix<R>(rows: seq<R>, next: int, bound: int)
    ensures |RownumFilter(rows, next, bound)| == Clamp(bound - next + 1, |rows|)
    ensures forall i :: 0 <= i < |RownumFilter(rows, next, bound)| ==>
              RownumFilter(rows, next, bound)[i] == (next + i, rows[i])
    decreases |rows|
  {
    if rows != [] {
      RownumFilterPrefix(rows[1..], if next <= bound then next + 1 else next, bound);
    }
  }

  /** On consecutively numbered rows, ROW_ID > lower drops a prefix. */
  lemma {:induction false} RowIdFilterSuffix<R>(numbered: seq<(int, R)>, first: int, lower: int)
    requires forall i :: 0 <= i < |numbered| ==> numbered[i].0 == first + i
    ensures var j := Clamp(lower - first + 1, |numbered|);
            |RowIdFilter(numbered, lower)| == |numbered| - j &&
            forall i :: 0 <= i < |numbered| - j ==> RowIdFilter(numbered, lower)[i] == numbered[j + i].1
    decreases |numbered|
  {
    if numbered != [] {
      assert numbered[0].0 == first;
      RowIdFilterSuffix(numbered[1..], first + 1, lower);
    }
  }

  /**
   * For a non-negative offset and limit whose sum fits in a long, the
   * statement with the dialect's bind values returns exactly the page.
   */
  lemma PaginationSelectsPage<R>(rows: seq<R>, offset: Long, limit: Long)
    requires 0 <= offset && 0 <= limit && offset + limit <= LONG_MAX
    ensures PaginatedRows(rows, FirstBound(offset, limit), offset) == Page(rows, offset, limit)
  {
    var first := FirstBound(offset, limit);
    assert first == offset + limit;
    var numbered := RownumFilter(rows, 1, first);
    RownumFilterPrefix(rows, 1, first);
    RowIdFilterSuffix(numbered, 1, offset);
    var j := Clamp(offset, |numbered|);
    var result := PaginatedRows(rows, first, offset);
    var page := Page(rows, offset, limit);
    assert |numbered| == Clamp(offset + limit, |rows|);
    assert j == Clamp(offset, |rows|);
    assert |result| == |page|;
    forall i | 0 <= i < |result| ensures result[i] == page[i] {
      assert result[i] == numbered[j + i].1 == rows[j + i];
    }
  }

  /**
   * For a negative offset, the first bind value is limit alone and
   * ROW_ID > offset keeps every numbered row: the page starts at the first row.
   */
  lemma NegativeOffsetReadsFromStart<R>(rows: seq<R>, offset: Long, limit: Long)
    requires offset < 0 && 0 <= limit
    ensures PaginatedRows(rows, FirstBound(offset, limit), offset) == Page(rows, 0, limit)
  {
    var numbered := RownumFilter(rows, 1, limit);
    RownumFilterPrefix(rows, 1, limit);
    RowIdFilterSuffix(numbered, 1, offset);
    var result := PaginatedRows(rows, limit, offset);
    var page := Page(rows, 0, limit);
    assert |result| == |page|;
    forall i | 0 <= i < |result| ensures result[i] == page[i] {
      assert result[i] == numbered[i].1 == rows[i];
    }
  }

  /**
   * When offset + limit overflows a long, the first bind value wraps to a
   * negative number, ROWNUM <= that number accepts no row, and the page is empty.
   */
  lemma OverflowGivesEmptyPage<R>(rows: seq<R>, offset: Long, limit: Long)
    requires offset >= 1 && offset + limit > LONG_MAX
    ensures FirstBound(offset, limit) < 0
    ensures PaginatedRows(rows, FirstBound(offset, limit), offset) == []
  {
    RownumFilterPrefix(rows, 1, FirstBound(offset, limit));
  }

  /**
   * The same for the statement built from any query: its bind values
   * select the page of that query's rows.
   */
  lemma BuiltStatementSelectsPage<R>(parse: string -> ParseOutcome, originalSql: string,
                                     rows: seq<R>, offset: Long, limit: Long,
                                     firstMark: string, secondMark: string)
    requires 0 <= offset && 0 <= limit && offset + limit <= LONG_MAX
    ensures var m := BuildPaginationSql(parse, originalSql, offset, limit, firstMark, secondMark);
            PaginatedRows(rows, m.firstParam, m.secondParam) == Page(rows, offset, limit)
  {
    PaginationSelectsPage(rows, offset, limit);
  }
}
