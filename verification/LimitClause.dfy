/**
 The LIMIT/OFFSET clause of internal/sqlguard/rewrite.go: inserting it changes nothing else in the
 query, and printed literals are skipped as a whole whatever they contain.
 */
module LimitClause {
  import opened GoStrings
  import opened SqlTokens
  import opened SqlInsertion
  import opened SqlLexis
  import opened SqlGuard

  function Clause(limit: int, offset: int): (u: Bytes)
    ensures |u| > 0 && u[0] == ' ' && IsDigit(u[|u| - 1])
  {
    " LIMIT " + FormatInt(limit) + " OFFSET " + FormatInt(offset)
  }

  function WithLimitOffset(q: Bytes, info: Info, limit: int, offset: int): Bytes {
    var at := if info.codeEnd < 0 || info.codeEnd > |q| then |q| else info.codeEnd;
    q[..at] + Clause(limit, offset) + q[at..]
  }

  // ----- the clause scans byte by byte, also with negative numbers -----

  predicate IsPlain(c: byte) {
    !IsQuote(c) && c != '#' && c != '/' && c != '-'
  }

  /** Text in which no literal and no comment can start, whatever follows it. */
  predicate PlainText(s: Bytes) {
    forall i | 0 <= i < |s| :: IsPlain(s[i]) || (s[i] == '-' && i + 1 < |s| && s[i + 1] != '-')
  }

  function ByteTokens(s: Bytes): (ts: seq<Token>)
    ensures |ts| == |s|
    ensures forall i | 0 <= i < |s| :: ts[i].text == [s[i]]
    ensures forall i | 0 <= i < |s| :: !ts[i].Quoted? && (IsDigit(s[i]) ==> ts[i].Significant())
  {
    if s == [] then []
    else [if s[0] == ';' || IsSpaceByte(s[0]) then Blank([s[0]]) else Code([s[0]])] + ByteTokens(s[1..])
  }

  lemma {:induction false} PlainTextTokens(s: Bytes, w: Bytes)
    requires PlainText(s)
    ensures Tokenize(s + w) == ByteTokens(s) + Tokenize(w)
  {
    hide FirstToken;
    if s == [] {
      assert s + w == w;
      assert ByteTokens(s) + Tokenize(w) == Tokenize(w);
    } else {
      PlainTextTokens(s[1..], w);
      assert s + w == [s[0]] + (s[1..] + w);
      PlainFirst(s, w);
      TokenizeCons(ByteTokens(s)[0], s[1..] + w);
      Associative([ByteTokens(s)[0]], ByteTokens(s[1..]), Tokenize(w));
    }
  }

  lemma PlainFirst(s: Bytes, w: Bytes)
    requires PlainText(s) && s != []
    ensures FirstToken([s[0]] + (s[1..] + w)) == ByteTokens(s)[0]
  {
    assert s[0] == '-' ==> s[1] != '-';
  }

  lemma ClauseIsPlain(limit: int, offset: int)
    ensures PlainText(Clause(limit, offset))
  {
    var l, o := FormatInt(limit), FormatInt(offset);
    NumberIsPlain(limit);
    NumberIsPlain(offset);
    PlainAppend(" LIMIT ", l);
    PlainAppend(" LIMIT " + l, " OFFSET ");
    PlainAppend(" LIMIT " + l + " OFFSET ", o);
  }

  lemma NumberIsPlain(i: int)
    ensures PlainText(FormatInt(i))
  {
  }

  lemma PlainAppend(a: Bytes, b: Bytes)
    requires PlainText(a) && PlainText(b)
    ensures PlainText(a + b)
  {
  }

  // ----- the theorem about the inserted clause -----

  /**
   The rewritten query reads as the tokens of the old one up to its last significant byte, then the
   clause, then the untouched tail, exactly when no literal is left open in the query and its
   significant part does not end in "--".
   */
  lemma InsertedClause(q: Bytes, info: Info, limit: int, offset: int)
    requires info.codeEnd == CodeEndOf(q)
    ensures var ts, clause := Tokenize(q), Tokenize(Clause(limit, offset));
      Tokenize(WithLimitOffset(q, info, limit, offset)) == Head(ts) + clause + Tail(ts) <==> InsertionSafe(q)
  {
    hide FirstToken, Tokenize, InsertionSafe, Clause;
    var ts, u := Tokenize(q), Clause(limit, offset);
    var hs, rest := Head(ts), Flatten(Tail(ts));
    HeadAndTail(q);
    ClauseTokens(limit, offset, rest);
    InsertionTheorem(q, u + rest);
    assert q[..|Flatten(hs)|] == Flatten(hs) && q[|Flatten(hs)|..] == rest;
    Associative(Flatten(hs), u, rest);
    Associative(hs, Tokenize(u), Tail(ts));
  }

  lemma ClauseTokens(limit: int, offset: int, w: Bytes)
    ensures var u := Clause(limit, offset);
      && Tokenize(u) == ByteTokens(u)
      && Tokenize(u + w) == Tokenize(u) + Tokenize(w)
  {
    var u := Clause(limit, offset);
    ClauseIsPlain(limit, offset);
    PlainTextTokens(u, w);
    PlainTextTokens(u, []);
    assert u + [] == u && ByteTokens(u) + Tokenize([]) == ByteTokens(u);
  }

  /** The consequences a caller sees: where the code ends now, and what the code is. */
  lemma InsertedClauseIsCode(q: Bytes, info: Info, limit: int, offset: int)
    requires info.codeEnd == CodeEndOf(q)
    requires InsertionSafe(q)
    ensures var r, u := WithLimitOffset(q, info, limit, offset), Clause(limit, offset);
      && CodeEndOf(r) == CodeEndOf(q) + |u|
      && r[CodeEndOf(r)..] == q[CodeEndOf(q)..]
      && SignificantText(Tokenize(r)) == SignificantText(Tokenize(q)) + SignificantText(Tokenize(u))
      && InsertionSafe(r)
  {
    hide FirstToken, Tokenize, Clause, Flatten, SignificantText, Head;
    var ts, u := Tokenize(q), Clause(limit, offset);
    InsertedClause(q, info, limit, offset);
    ClauseTokens(limit, offset, []);
    TokensCoverTheText(u);
    CodeBetween(Head(ts), Tokenize(u), Tail(ts));
    HeadAndTail(q);
    HeadAppendTail(ts);
    SignificantTextAppend(Head(ts), Tail(ts));
    ClauseStaysSafe(q, info, limit, offset);
  }

  lemma HeadAppendTail(ts: seq<Token>)
    ensures SignificantText(ts) == SignificantText(Head(ts))
  {
    assert ts == Head(ts) + Tail(ts);
    SignificantTextAppend(Head(ts), Tail(ts));
    TriviaHasNoSignificantText(Tail(ts));
  }

  /** Code put between a head and a tail of trivia becomes the end of the head. */
  lemma CodeBetween(hs: seq<Token>, us: seq<Token>, tl: seq<Token>)
    requires us != [] && us[|us| - 1].Significant()
    requires forall i | 0 <= i < |tl| :: !tl[i].Significant()
    ensures Head(hs + us + tl) == hs + us && Tail(hs + us + tl) == tl
    ensures Flatten(hs + us) == Flatten(hs) + Flatten(us)
    ensures SignificantText(hs + us + tl) == SignificantText(hs) + SignificantText(us)
  {
    HeadOfAppend(hs + us, tl);
    FlattenAppend(hs, us);
    SignificantTextAppend(hs + us, tl);
    SignificantTextAppend(hs, us);
    TriviaHasNoSignificantText(tl);
  }

  lemma ClosedAppend(a: seq<Token>, b: seq<Token>)
    requires AllClosed(a) && AllClosed(b)
    ensures AllClosed(a + b)
  {
  }

  lemma DigitIsNoDash(s: Bytes, u: Bytes)
    requires |u| > 0 && IsDigit(u[|u| - 1])
    ensures !EndsInDashes(s + u)
  {
  }

  lemma ClauseStaysSafe(q: Bytes, info: Info, limit: int, offset: int)
    requires info.codeEnd == CodeEndOf(q)
    requires InsertionSafe(q)
    ensures InsertionSafe(WithLimitOffset(q, info, limit, offset))
  {
    hide *;
    var ts, u := Tokenize(q), Clause(limit, offset);
    var us := Tokenize(u);
    InsertedClause(q, info, limit, offset);
    ClauseTokens(limit, offset, []);
    ByteTokensAreClosed(u);
    SafeParts(q);
    TailIsTrivia(ts);
    TokensCoverTheText(u);
    ClosedAppend(Head(ts), us);
    ClosedAppend(Head(ts) + us, Tail(ts));
    CodeBetween(Head(ts), us, Tail(ts));
    DigitIsNoDash(Flatten(Head(ts)), u);
    SafeTokens(WithLimitOffset(q, info, limit, offset), Head(ts) + us, Tail(ts));
  }

  lemma TailIsTrivia(ts: seq<Token>)
    ensures forall i | 0 <= i < |Tail(ts)| :: !Tail(ts)[i].Significant()
  {
  }

  lemma ByteTokensAreClosed(s: Bytes)
    ensures AllClosed(ByteTokens(s))
  {
  }

  lemma SafeParts(q: Bytes)
    requires InsertionSafe(q)
    ensures AllClosed(Head(Tokenize(q))) && AllClosed(Tail(Tokenize(q)))
  {
  }

  lemma SafeTokens(q: Bytes, hs: seq<Token>, tl: seq<Token>)
    requires Tokenize(q) == hs + tl && Head(hs + tl) == hs
    requires AllClosed(hs + tl) && !EndsInDashes(Flatten(hs))
    ensures InsertionSafe(q)
  {
  }

  /** An offset that is none of the query's puts the clause behind the whole text. */
  lemma OutOfRangeAppends(q: Bytes, info: Info, limit: nat, offset: nat)
    requires info.codeEnd < 0 || info.codeEnd > |q|
    ensures WithLimitOffset(q, info, limit, offset) == q + (" LIMIT " + Itoa(limit) + " OFFSET " + Itoa(offset))
  {
    assert q[..|q|] == q && q[|q|..] == [];
  }

  // ----- how far codeEnd can be trusted -----

  /** codeEnd cuts the query into code and trivia, and the trivia scans as trivia on its own. */
  lemma CodeEndSplitsTheQuery(q: Bytes)
    ensures var c, ts := CodeEndOf(q), Tokenize(q);
      && q[..c] == Flatten(Head(ts))
      && Tokenize(q[c..]) == Tail(ts)
      && SignificantText(Tokenize(q[c..])) == []
      && CodeEndOf(q[c..]) == 0
      && (c == 0 <==> SignificantText(ts) == [])
  {
    hide FirstToken;
    var ts := Tokenize(q);
    var hs := Head(ts);
    HeadAndTail(q);
    assert q[|Flatten(hs)|..] == Flatten(Tail(ts));
    HeadAppendTail(ts);
    HeadOfAppend([], Tail(ts));
    assert [] + Tail(ts) == Tail(ts);
    TriviaHasNoSignificantText(Tail(ts));
    if hs != [] {
      LastIsNotEmpty(q, hs, Tail(ts));
    }
  }

  lemma LastIsNotEmpty(q: Bytes, hs: seq<Token>, rs: seq<Token>)
    requires Tokenize(q) == hs + rs
    requires hs != [] && hs[|hs| - 1].Significant()
    ensures Flatten(hs) != [] && SignificantText(hs) != []
  {
    hide FirstToken, Flatten, Tokenize;
    var n := |hs| - 1;
    TokensInContext(q, hs, rs, n);
    assert hs == hs[..n] + [hs[n]];
    SignificantTextAppend(hs[..n], [hs[n]]);
  }

  /**
   Scanning the code alone finds the same end exactly when nothing was behind it, or it does not
   end in "--": at the end of the text two dashes are a comment.
   */
  lemma CodeEndIsStable(q: Bytes)
    ensures var c := CodeEndOf(q);
      CodeEndOf(q[..c]) == c <==> c == |q| || !EndsInDashes(q[..c])
  {
    hide FirstToken, Tokenize, EndsInDashes;
    var c, ts := CodeEndOf(q), Tokenize(q);
    var hs, tl := Head(ts), Tail(ts);
    HeadAndTail(q);
    assert q[..c] == Flatten(hs);
    if c == |q| {
      assert q[..c] == q;
    } else {
      assert Flatten(tl) != [];
      RescannedHead(q, hs, tl);
    }
  }

  /** Scanning the head of a query alone, when something lies behind it. */
  lemma RescannedHead(q: Bytes, hs: seq<Token>, tl: seq<Token>)
    requires Tokenize(q) == hs + tl && tl != [] && Flatten(tl) != [] && Head(hs + tl) == hs
    ensures CodeEndOf(Flatten(hs)) == |Flatten(hs)| <==> !EndsInDashes(Flatten(hs))
  {
    assert hs == [] ==> Flatten(hs) == [];
    hide FirstToken, Tokenize, Flatten;
    OnlyTheLastIsOpen(q, hs, tl);
    if EndsInDashes(Flatten(hs)) {
      TrailingDashes(q, hs, tl);
      DashesAreDropped(q, hs, tl);
    } else {
      HeadSurvives(q, hs, tl, []);
      TokenizeEmpty();
      assert Flatten(hs) + [] == Flatten(hs) && hs + [] == hs;
      HeadOfAppend(hs, []);
      CodeEndFromTokens(Flatten(hs), hs);
    }
  }

  lemma TokenizeEmpty()
    ensures Tokenize([]) == []
  {
  }

  lemma OnlyTheLastIsOpen(q: Bytes, hs: seq<Token>, rs: seq<Token>)
    requires Tokenize(q) == hs + rs && rs != []
    ensures AllClosed(hs)
  {
    hide FirstToken;
    forall i | 0 <= i < |hs|
      ensures hs[i].Quoted? ==> hs[i].closed
    {
      TokensInContext(q, hs, rs, i);
      TokenEnds(q[|Flatten(hs[..i])|..]);
      SplitTokens(q, hs, rs);
    }
  }

  lemma DashesAreDropped(q: Bytes, hs: seq<Token>, tl: seq<Token>)
    requires Tokenize(q) == hs + tl && tl != []
    requires |hs| >= 2 && hs[|hs| - 2].text == "-" && hs[|hs| - 1].text == "-"
    requires AllClosed(hs)
    ensures CodeEndOf(Flatten(hs)) < |Flatten(hs)|
  {
    var bs := hs[..|hs| - 2];
    BeforeDashes(q, hs, tl);
    hide *;
    HeadIsNoLonger(bs, [LineComment("--")]);
    CodeEndFromTokens(Flatten(hs), bs + [LineComment("--")]);
  }

  lemma CodeEndFromTokens(q: Bytes, ts: seq<Token>)
    requires Tokenize(q) == ts
    ensures CodeEndOf(q) == |Flatten(Head(ts))|
  {
  }

  lemma BeforeDashes(q: Bytes, hs: seq<Token>, tl: seq<Token>)
    requires Tokenize(q) == hs + tl && tl != []
    requires |hs| >= 2 && hs[|hs| - 2].text == "-" && hs[|hs| - 1].text == "-"
    requires AllClosed(hs)
    ensures var bs := hs[..|hs| - 2];
      && Tokenize(Flatten(hs)) == bs + [LineComment("--")]
      && !LineComment("--").Significant()
      && Flatten(hs) == Flatten(bs) + "--"
  {
    hide FirstToken, Flatten, Tokenize;
    var m := |hs| - 2;
    var bs, rs := hs[..m], hs[m..] + tl;
    assert hs + tl == bs + rs;
    FlattenDashes2(hs[m..]);
    FlattenAppend(bs, hs[m..]);
    assert hs == bs + hs[m..];
    FlattenAppend(hs[m..], tl);
    HeadSurvives(q, bs, rs, "--");
    DashesAlone();
  }

  lemma FlattenDashes2(hs: seq<Token>)
    requires |hs| == 2 && hs[0].text == "-" && hs[1].text == "-"
    ensures Flatten(hs) == "--"
  {
    FlattenDashes(hs[1..]);
  }

  lemma DashesAlone()
    ensures Tokenize("--") == [LineComment("--")]
  {
    assert "--"[1..] == "-" && "-"[1..] == "";
    assert LineRest("--") == 2;
    assert FirstToken("--") == LineComment("--");
    assert "--"[2..] == [];
  }

  lemma HeadIsNoLonger(bs: seq<Token>, rs: seq<Token>)
    requires forall i | 0 <= i < |rs| :: !rs[i].Significant()
    ensures |Flatten(Head(bs + rs))| <= |Flatten(bs)|
  {
    hide Head, Flatten;
    var hs, tl := Head(bs), Tail(bs);
    assert bs == hs + tl;
    FlattenAppend(hs, tl);
    Associative(hs, tl, rs);
    HeadOfAppend(hs, tl + rs);
  }

  // ----- a query in which the insertion goes wrong -----

  /** A query that fails the condition. */
  const DASHED: Bytes := ['x', '-', '-', ';']

  lemma OneByteToken(s: Bytes)
    requires s != [] && (FirstToken(s).Code? || FirstToken(s).Blank?)
    ensures Tokenize(s) == [FirstToken(s)] + Tokenize(s[1..])
  {
    FirstTokenKind(s);
  }

  lemma DashedTokens()
    ensures Tokenize(DASHED) == [Code("x"), Code("-"), Code("-"), Blank(";")]
  {
    hide Tokenize, FirstToken;
    var q := DASHED;
    var q1, q2, q3 := q[1..], q[2..], q[3..];
    assert q1[1..] == q2 && q2[1..] == q3 && q3[1..] == [];
    FirstTokenKind(q);
    FirstTokenKind(q1);
    FirstTokenKind(q2);
    FirstTokenKind(q3);
    OneByteToken(q);
    OneByteToken(q1);
    OneByteToken(q2);
    OneByteToken(q3);
    TokenizeEmpty();
  }

  lemma DashedCodeTokens()
    ensures Tokenize(DASHED[..3]) == [Code("x"), LineComment("--")]
  {
    hide Tokenize;
    var x: Bytes := ['x'];
    DashesAlone();
    assert DASHED[..3] == x + "--";
    TokenizeCons(Code(x), "--");
  }

  /** Its code ends in two dashes, which are a comment once the semicolon is gone: codeEnd is not stable. */
  lemma DashedIsUnsafe()
    ensures CodeEndOf(DASHED) == 3 && CodeEndOf(DASHED[..3]) == 1
    ensures !InsertionSafe(DASHED)
  {
    hide Tokenize;
    DashedTokens();
    DashedCodeTokens();
    assert Head(Tokenize(DASHED)) == [Code("x"), Code("-"), Code("-")];
    assert Head(Tokenize(DASHED[..3])) == [Code("x")];
    assert DASHED[..3] == "x--";
    HeadAndTail(DASHED);
  }

  /** Two dashes, the clause and what stood behind the code. */
  function Swallowed(limit: int, offset: int): Bytes {
    "--" + Clause(limit, offset) + ";"
  }

  /** The clause ends up in a comment, whatever it says. */
  lemma DashesSwallowTheClause(info: Info, limit: int, offset: int)
    requires info.codeEnd == 3
    ensures Tokenize(WithLimitOffset(DASHED, info, limit, offset)) == [Code("x"), LineComment(Swallowed(limit, offset))]
  {
    hide Tokenize, Clause, FirstToken;
    var comment := Swallowed(limit, offset);
    var text: Bytes := ['x'] + comment;
    ClauseIsOneLine(limit, offset);
    assert comment[0] == '-' && comment[1] == '-' && comment[2] == ' ';
    assert '\n' !in comment && comment[..|comment|] == comment;
    FirstTokenKind(comment);
    LineCommentEnds(comment, |comment|);
    assert text[0] == 'x' && text[1..] == comment;
    FirstTokenKind(text);
    OneByteToken(text);
    TokenizeEmpty();
    assert comment + [] == comment;
    TokenizeCons(LineComment(comment), []);
    assert WithLimitOffset(DASHED, info, limit, offset) == text;
  }

  lemma ClauseIsOneLine(limit: int, offset: int)
    ensures '\n' !in Clause(limit, offset)
  {
    NumberIsOneLine(limit);
    NumberIsOneLine(offset);
    hide FormatInt;
  }

  lemma NumberIsOneLine(i: int)
    ensures '\n' !in FormatInt(i)
  {
  }

  // ----- literals as the printer and the scanner see them -----

  /** A string written as a literal: quotes are doubled, and backslashes too where they escape. */
  function Escaped(b: Bytes, quote: byte): Bytes {
    if b == [] then []
    else (if b[0] == quote || (Escapes(quote) && b[0] == '\\') then [b[0], b[0]] else [b[0]]) + Escaped(b[1..], quote)
  }

  function Literal(b: Bytes, quote: byte): Bytes {
    [quote] + Escaped(b, quote) + [quote]
  }

  /**
   Whatever the string holds, its literal is one token and skipQuoted stops right behind it,
   unless the text goes on with the same quote, which reopens the literal.
   */
  lemma LiteralIsOneToken(b: Bytes, quote: byte, rest: Bytes)
    requires IsQuote(quote)
    ensures FirstToken(Literal(b, quote) + rest) == Quoted(Literal(b, quote), true)
      <==> rest == [] || rest[0] != quote
    ensures rest == [] || rest[0] != quote
      ==> Tokenize(Literal(b, quote) + rest) == [Quoted(Literal(b, quote), true)] + Tokenize(rest)
  {
    var l := Literal(b, quote);
    var body := Escaped(b, quote) + ([quote] + rest);
    hide Tokenize, QuotedRest, Escaped, LineRest, BlockRest;
    assert l + rest == [quote] + body;
    QuotedFirst(l + rest, body);
    assert (l + rest)[..|l|] == l;
    if rest == [] || rest[0] != quote {
      EscapedIsSkipped(b, quote, rest);
      TokenizeCons(Quoted(l, true), rest);
    } else {
      assert body[|l| - 1] == quote;
    }
  }

  lemma {:induction false} EscapedIsSkipped(b: Bytes, quote: byte, rest: Bytes)
    requires IsQuote(quote)
    requires rest != [] ==> rest[0] != quote
    ensures QuotedRest(Escaped(b, quote) + ([quote] + rest), quote, Escapes(quote))
         == Extent(|Escaped(b, quote)| + 1, true)
  {
    hide QuotedRest;
    var s := Escaped(b, quote) + ([quote] + rest);
    QuotedStep(s, quote, Escapes(quote));
    if b == [] {
      assert s == [quote] + rest;
    } else {
      var s' := Escaped(b[1..], quote) + ([quote] + rest);
      EscapedIsSkipped(b[1..], quote, rest);
      if b[0] == quote || (Escapes(quote) && b[0] == '\\') {
        Associative([b[0], b[0]], Escaped(b[1..], quote), [quote] + rest);
        assert s[2..] == s';
      } else {
        Associative([b[0]], Escaped(b[1..], quote), [quote] + rest);
        assert s[1..] == s';
      }
    }
  }
}
