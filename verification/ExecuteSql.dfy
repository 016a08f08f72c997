/** Auto-LIMIT and paging of internal/tools/execute_sql.go, over an arbitrary query inspector. */
module ExecuteSql {
  import opened Wrappers
  import opened GoStrings
  import opened SqlTokens
  import opened SqlInsertion
  import opened SqlGuard
  import opened LimitClause

  const DEFAULT_ROW_LIMIT := 1000
  const MAX_ROW_LIMIT := 50000
  const MAX_INT64 := 0x7FFF_FFFF_FFFF_FFFF

  /** sqlguard.Inspect, with None for a query that it refuses. */
  type Inspector = Bytes -> Option<Info>

  datatype Warning =
    | AutoLimitDisabled(rowLimit: int)
    | CouldNotAppend(clause: Bytes, rowLimit: int)
    | Appended(clause: Bytes, nextOffset: int)

  /** The SQL that goes to Metabase, the paging facts reported with it, and the warnings. */
  datatype Plan = Plan(sql: Bytes, page: Info, warnings: seq<Warning>)

  function NormalizeLimit(n: int): (limit: nat)
    ensures 1 <= limit <= MAX_ROW_LIMIT
    ensures 1 <= n <= MAX_ROW_LIMIT ==> limit == n
    ensures n <= 0 ==> limit == 1000
    ensures n > 50_000 ==> limit == 50_000
  {
    if n <= 0 then DEFAULT_ROW_LIMIT else if n > MAX_ROW_LIMIT then MAX_ROW_LIMIT else n
  }

  function MaybeAppendLimit(query: Bytes, info: Info, limit: int, auto: bool, inspect: Inspector): Plan {
    if info.hasLimit then
      Plan(query, info, [])
    else if !auto then
      Plan(query, info, [AutoLimitDisabled(limit)])
    else
      var clause := "LIMIT " + FormatInt(limit) + " OFFSET 0";
      var rewritten := WithLimitOffset(query, info, limit, 0);
      var page := inspect(rewritten);
      if page == None || !page.value.hasLimit then
        Plan(query, info, [CouldNotAppend(clause, limit)])
      else
        Plan(rewritten, page.value, [Appended(clause, limit)])
  }

  /** Two's complement wrap-around of an int64 sum. */
  function Int64(n: int): (w: int)
    ensures -MAX_INT64 - 1 <= w <= MAX_INT64
  {
    (n + MAX_INT64 + 1) % (2 * (MAX_INT64 + 1)) - MAX_INT64 - 1
  }

  predicate IsInt64(n: int) {
    -MAX_INT64 - 1 <= n <= MAX_INT64
  }

  function NextOffset(page: Info): Option<int> {
    if !page.hasLimit || page.limit < 0 then None
    else
      var off := if !page.hasOffset || page.offset < 0 then 0 else page.offset;
      Some(Int64(off + page.limit))
  }

  // ----- the facts describe the query that is sent -----

  /** Inspect fills CodeEnd in from its own scanner, whatever the parser says (internal/sqlguard/inspect.go:55). */
  ghost predicate ReportsCodeEnd(inspect: Inspector) {
    forall q: Bytes :: inspect(q).Some? ==> inspect(q).value.codeEnd == CodeEndOf(q)
  }

  /** Whatever the inspector answers, the reported facts are its answer about the SQL that is sent. */
  lemma PlanDescribesWhatIsSent(query: Bytes, info: Info, limit: int, auto: bool, inspect: Inspector)
    requires inspect(query) == Some(info)
    ensures var p := MaybeAppendLimit(query, info, limit, auto, inspect);
      && inspect(p.sql) == Some(p.page)
      && (p.sql != query ==> auto && !info.hasLimit && p.page.hasLimit)
      && ((exists w :: w in p.warnings && w.Appended?) <==> p.sql != query)
      && (NextOffset(p.page).None? && p.page.limit >= 0 ==> p.warnings != [])
  {
    var p := MaybeAppendLimit(query, info, limit, auto, inspect);
    if p.sql != query {
      assert p.warnings[0].Appended?;
    } else {
      assert |WithLimitOffset(query, info, limit, 0)| > |query|;
    }
  }

  function LimitText(limit: nat): Bytes {
    "LIMIT " + Itoa(limit) + " OFFSET 0"
  }

  /**
   When the clause is appended: with auto-limit, without an own LIMIT, and if the inspector accepts the
   query with the clause at the place it has reported and finds a LIMIT in it. That text is then what is
   sent; otherwise it is the user's query, with a warning unless it has a LIMIT of its own.
   */
  lemma ClauseIsAppendedIff(query: Bytes, info: Info, limit: nat, auto: bool, inspect: Inspector)
    requires 0 <= info.codeEnd <= |query|
    ensures var p := MaybeAppendLimit(query, info, limit, auto, inspect);
      var text := query[..info.codeEnd] + ([' '] + LimitText(limit)) + query[info.codeEnd..];
      var accepted := inspect(text).Some? && inspect(text).value.hasLimit;
      && p.sql == (if auto && !info.hasLimit && accepted then text else query)
      && p.page == (if auto && !info.hasLimit && accepted then inspect(text).value else info)
      && p.warnings == (if info.hasLimit then []
                        else if !auto then [AutoLimitDisabled(limit)]
                        else if accepted then [Appended(LimitText(limit), limit)]
                        else [CouldNotAppend(LimitText(limit), limit)])
  {
    ClauseSpelled(limit);
    hide LimitText, Clause, FormatInt;
  }

  lemma ClauseSpelled(limit: nat)
    ensures Clause(limit, 0) == [' '] + LimitText(limit)
    ensures "LIMIT " + FormatInt(limit) + " OFFSET 0" == LimitText(limit)
  {
    var l := Itoa(limit);
    assert FormatInt(0) == ['0'];
    hide Itoa;
    Spelled(l);
  }

  lemma Spelled(l: Bytes)
    ensures " LIMIT " + l + " OFFSET " + ['0'] == [' '] + ("LIMIT " + l + " OFFSET 0")
  {
    assert " LIMIT " == [' '] + "LIMIT " && " OFFSET 0" == " OFFSET " + ['0'];
  }

  /**
   A rewritten query is the user's code, the clause, and the trivia behind the code, token by token,
   exactly when no literal is left open in the query and its code does not end in two dashes. Nothing is
   assumed of the parser.
   */
  lemma RewritingKeepsTheCodeIff(query: Bytes, info: Info, limit: int, auto: bool, inspect: Inspector)
    requires ReportsCodeEnd(inspect) && inspect(query) == Some(info)
    ensures var p, ts := MaybeAppendLimit(query, info, limit, auto, inspect), Tokenize(query);
      && p.page.codeEnd == CodeEndOf(p.sql)
      && (p.sql != query ==>
            (Tokenize(p.sql) == Head(ts) + Tokenize(Clause(limit, 0)) + Tail(ts) <==> InsertionSafe(query)))
  {
    hide FirstToken, Tokenize, Clause, Head, InsertionSafe;
    PlanDescribesWhatIsSent(query, info, limit, auto, inspect);
    InsertedClause(query, info, limit, 0);
  }

  /** What that means for the bytes: the code is the old code and the clause, and the rest is untouched. */
  lemma RewritingKeepsTheBytes(query: Bytes, info: Info, limit: int, auto: bool, inspect: Inspector)
    requires ReportsCodeEnd(inspect) && inspect(query) == Some(info)
    ensures var p, c := MaybeAppendLimit(query, info, limit, auto, inspect), CodeEndOf(query);
      p.sql == query || !InsertionSafe(query) ||
      (&& p.sql[CodeEndOf(p.sql)..] == query[c..]
       && SignificantText(Tokenize(p.sql))
          == SignificantText(Tokenize(query)) + SignificantText(Tokenize(Clause(limit, 0))))
  {
    hide FirstToken, Tokenize, SignificantText, Clause, InsertionSafe;
    if InsertionSafe(query) {
      InsertedClauseIsCode(query, info, limit, 0);
    }
  }

  // ----- the clause carries the numbers it was given -----

  function DigitRun(s: Bytes): (n: nat)
    ensures n <= |s|
    ensures AllDigits(s[..n])
    ensures n < |s| ==> !IsDigit(s[n])
  {
    if s == [] || !IsDigit(s[0]) then 0 else 1 + DigitRun(s[1..])
  }

  function ParseClause(s: Bytes): Option<(nat, nat)> {
    if |s| >= 7 && s[..7] == " LIMIT " then
      var n := DigitRun(s[7..]);
      var limit, rest := s[7..][..n], s[7..][n..];
      if n > 0 && |rest| > 8 && rest[..8] == " OFFSET " && AllDigits(rest[8..]) then
        Some((Atoi(limit), Atoi(rest[8..])))
      else None
    else None
  }

  lemma {:induction false} DigitRunEnds(d: Bytes, w: Bytes)
    requires AllDigits(d)
    requires w != [] ==> !IsDigit(w[0])
    ensures DigitRun(d + w) == |d|
  {
    if d == [] {
      assert d + w == w;
    } else {
      DigitRunEnds(d[1..], w);
      assert (d + w)[1..] == d[1..] + w;
    }
  }

  /** Reading the clause back gives the two numbers that were printed into it. */
  lemma ClauseReadsBack(limit: nat, offset: nat)
    ensures ParseClause(Clause(limit, offset)) == Some((limit, offset))
  {
    var l, o := Itoa(limit), Itoa(offset);
    var w: Bytes := " OFFSET " + o;
    var s := Clause(limit, offset);
    assert s == " LIMIT " + (l + w);
    assert s[..7] == " LIMIT " && s[7..] == l + w;
    DigitRunEnds(l, w);
    assert (l + w)[..|l|] == l && (l + w)[|l|..] == w;
    assert w[..8] == " OFFSET " && w[8..] == o;
    AtoiItoa(limit);
    AtoiItoa(offset);
  }

  // ----- following next_offset -----

  function Min(a: int, b: int): int {
    if a < b then a else b
  }

  /** The rows from offset `from` up to, and without, offset `to`. */
  function Window<R>(rows: seq<R>, from: nat, to: nat): seq<R>
    requires from <= to
  {
    rows[Min(from, |rows|)..Min(to, |rows|)]
  }

  /** One page: LIMIT and OFFSET cut the result, then Metabase cuts it at the row cap. */
  function Fetch<R>(rows: seq<R>, limit: nat, offset: nat, cap: nat): seq<R> {
    Window(rows, offset, offset + Min(limit, cap))
  }

  function PageInfo(limit: int, offset: int): Info {
    Info(true, true, limit, offset, 0)
  }

  /** The rows a client collects by asking for the page at next_offset again and again. */
  function Follow<R>(rows: seq<R>, limit: nat, offset: int, cap: nat, pages: nat): seq<R>
    decreases pages
  {
    if pages == 0 || offset < 0 then []
    else
      Fetch(rows, limit, offset, cap) +
      Follow(rows, limit, NextOffset(PageInfo(limit, offset)).value, cap, pages - 1)
  }

  /** Where a page starts: at its OFFSET if the SQL has one that is known, else at the first row. */
  function PageStart(page: Info): nat {
    if page.hasOffset && page.offset >= 0 then page.offset else 0
  }

  /**
   There is a next_offset exactly for a known LIMIT. It is the row behind the page as long as that number
   is an int64, and negative otherwise.
   */
  lemma NextOffsetIsExact(page: Info)
    requires IsInt64(page.limit) && IsInt64(page.offset)
    ensures NextOffset(page).Some? <==> page.hasLimit && page.limit >= 0
    ensures NextOffset(page).Some? ==>
      (NextOffset(page).value == PageStart(page) + page.limit <==> PageStart(page) + page.limit <= MAX_INT64)
    ensures NextOffset(page).Some? && PageStart(page) + page.limit > MAX_INT64 ==> NextOffset(page).value < 0
  {
  }

  /** Pages no larger than the row cap tile the result, with no row lost and none repeated. */
  lemma {:induction false} PagesTile<R>(rows: seq<R>, limit: nat, offset: nat, cap: nat, pages: nat)
    requires limit <= cap
    requires offset + pages * limit <= MAX_INT64
    ensures Follow(rows, limit, offset, cap, pages) == Window(rows, offset, offset + pages * limit)
    decreases pages
  {
    if pages > 0 {
      var next := offset + limit;
      assert pages * limit == limit + (pages - 1) * limit;
      assert (pages - 1) * limit >= 0;
      NextOffsetIsExact(PageInfo(limit, offset));
      PagesTile(rows, limit, next, cap, pages - 1);
    }
  }

  /** If the inspector finds a LIMIT in the query with this clause inserted, it reports the clause's numbers. */
  ghost predicate ReadsTheClause(inspect: Inspector, query: Bytes, clause: Bytes) {
    var at := CodeEndOf(query);
    var page := inspect(query[..at] + clause + query[at..]);
    page.Some? && page.value.hasLimit ==>
      page.value.hasOffset && Some((page.value.limit, page.value.offset)) == ParseClause(clause)
  }

  lemma AppendedPage(query: Bytes, info: Info, limit: nat, inspect: Inspector)
    requires info.codeEnd == CodeEndOf(query) && ReadsTheClause(inspect, query, Clause(limit, 0))
    ensures var p := MaybeAppendLimit(query, info, limit, true, inspect);
      p.sql != query ==> p.page.hasLimit && p.page.hasOffset && p.page.limit == limit && p.page.offset == 0
  {
    ClauseReadsBack(limit, 0);
    hide ParseClause, Clause, CodeEndOf;
    assert WithLimitOffset(query, info, limit, 0)
        == query[..CodeEndOf(query)] + Clause(limit, 0) + query[CodeEndOf(query)..];
  }

  /**
   A query that was given the clause: its page facts are those of the first page, its next_offset is that
   of the second, and with enough pages behind it the client has every row once, in order.
   */
  lemma AutoLimitPagesAreTheResult<R>(rows: seq<R>, query: Bytes, info: Info, rowLimit: int, inspect: Inspector,
                                      pages: nat)
    requires info.codeEnd == CodeEndOf(query)
    requires ReadsTheClause(inspect, query, Clause(NormalizeLimit(rowLimit), 0))
    requires var limit := NormalizeLimit(rowLimit);
      && MaybeAppendLimit(query, info, limit, true, inspect).sql != query
      && |rows| <= (1 + pages) * limit <= MAX_INT64
    ensures var limit := NormalizeLimit(rowLimit);
      var page := MaybeAppendLimit(query, info, limit, true, inspect).page;
      && page.hasLimit && page.limit == limit && PageStart(page) == 0 && NextOffset(page) == Some(limit)
      && Fetch(rows, page.limit, PageStart(page), limit)
         + Follow(rows, limit, NextOffset(page).value, limit, pages) == rows
  {
    hide MaybeAppendLimit, ReadsTheClause, Follow, Fetch, NextOffset;
    var limit := NormalizeLimit(rowLimit);
    AppendedPage(query, info, limit, inspect);
    NextPageStarts(MaybeAppendLimit(query, info, limit, true, inspect).page, limit);
    FirstPageAndRest(rows, limit, pages);
  }

  lemma NextPageStarts(page: Info, limit: nat)
    requires page.hasLimit && page.hasOffset && page.limit == limit <= MAX_ROW_LIMIT && page.offset == 0
    ensures PageStart(page) == 0 && NextOffset(page) == Some(limit)
  {
  }

  lemma FirstPageAndRest<R>(rows: seq<R>, limit: nat, pages: nat)
    requires limit <= MAX_ROW_LIMIT && |rows| <= (1 + pages) * limit <= MAX_INT64
    ensures Fetch(rows, limit, 0, limit) + Follow(rows, limit, limit, limit, pages) == rows
  {
    NextPageStarts(PageInfo(limit, 0), limit);
    PagesTile(rows, limit, 0, limit, 1 + pages);
    hide NextOffset, Fetch;
    assert Follow(rows, limit, 0, limit, 1 + pages)
        == Fetch(rows, limit, 0, limit) + Follow(rows, limit, limit, limit, pages);
  }

  /**
   A LIMIT of the user's own may exceed the row cap. The next page then starts behind rows that were
   never delivered, unless the result was at its end.
   */
  lemma PageGap<R>(rows: seq<R>, limit: nat, offset: nat, cap: nat)
    requires offset + limit <= MAX_INT64
    ensures Follow(rows, limit, offset, cap, 2) == Window(rows, offset, offset + limit + Min(limit, cap))
      <==> limit <= cap || |rows| <= offset + cap
  {
    NextOffsetIsExact(PageInfo(limit, offset));
    var next := offset + limit;
    assert Follow(rows, limit, next, cap, 1) == Fetch(rows, limit, next, cap) by {
      assert Follow(rows, limit, NextOffset(PageInfo(limit, next)).value, cap, 0) == [];
    }
  }

  /** With LIMIT 2 and one row per response, the second of two rows is never seen. */
  lemma RowsCanBeSkipped<R>(first: R, second: R)
    ensures Window([first, second], 0, 3) == [first, second]
    ensures forall pages: nat | pages > 0 :: Follow([first, second], 2, 0, 1, pages) == [first]
  {
    forall pages: nat | pages > 0
      ensures Follow([first, second], 2, 0, 1, pages) == [first]
    {
      NextOffsetIsExact(PageInfo(2, 0));
      NothingIsLeft([first, second], 2, 2, 1, pages - 1);
    }
  }

  lemma {:induction false} NothingIsLeft<R>(rows: seq<R>, limit: nat, offset: int, cap: nat, pages: nat)
    requires |rows| <= offset || offset < 0
    requires IsInt64(limit) && IsInt64(offset)
    ensures Follow(rows, limit, offset, cap, pages) == []
    decreases pages
  {
    if pages > 0 && offset >= 0 {
      NextOffsetIsExact(PageInfo(limit, offset));
      NothingIsLeft(rows, limit, NextOffset(PageInfo(limit, offset)).value, cap, pages - 1);
    }
  }
}
