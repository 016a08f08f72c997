/**
 The tokens of internal/sqlguard/rewrite.go, described by the bytes they are made of: where each kind
 starts, where it ends, and what codeEnd is in these terms. Nothing here refers to the scanning functions
 that the tokenizer is built from.
 */
module SqlLexis {
  import opened GoStrings
  import opened SqlTokens
  import opened SqlGuard

  /** Tab, newline, vertical tab, form feed, carriage return and space. */
  predicate IsBlankCode(code: int) {
    9 <= code <= 13 || code == 32
  }

  /** unicode.IsSpace for one byte: these, and the codes of the next-line and the no-break space. */
  predicate IsSpaceCode(code: int) {
    IsBlankCode(code) || code == 0x85 || code == 0xA0
  }

  /** What a token is, by the first bytes of the text. */
  lemma FirstTokenKind(s: Bytes)
    requires s != []
    ensures var t, c := FirstToken(s), s[0];
      && (t.Quoted? <==> c == '\'' || c == '"' || c == '`')
      && (t.LineComment? <==>
            c == '#' || (c == '-' && |s| > 1 && s[1] == '-' && (|s| == 2 || IsSpaceCode(s[2] as int))))
      && (t.BlockComment? <==> c == '/' && |s| > 1 && s[1] == '*')
      && (t.Blank? <==> c == ';' || IsBlankCode(c as int))
      && (t.Blank? || t.Code? ==> t.text == [c])
  {
    hide QuotedRest, LineRest, BlockRest;
    BlankCodes(s[0]);
    if |s| > 2 {
      BlankCodes(s[2]);
    }
  }

  lemma BlankCodes(c: byte)
    ensures IsSpaceByte(c) <==> IsBlankCode(c as int)
    ensures IsUnicodeSpace(c) <==> IsSpaceCode(c as int)
  {
    CodesAreUnique(c, '\t');
    CodesAreUnique(c, '\n');
    CodesAreUnique(c, '\U{000B}');
    CodesAreUnique(c, '\U{000C}');
    CodesAreUnique(c, '\r');
    CodesAreUnique(c, ' ');
    CodesAreUnique(c, '\U{0085}');
    CodesAreUnique(c, '\U{00A0}');
  }

  lemma CodesAreUnique(c: char, d: char)
    ensures c == d <==> c as int == d as int
  {
  }

  // ----- where comments end -----

  lemma {:induction false} LineRestIs(s: Bytes, n: nat)
    requires n <= |s| && '\n' !in s[..n]
    requires n < |s| ==> s[n] == '\n'
    ensures LineRest(s) == if n < |s| then n + 1 else n
  {
    if n > 0 {
      assert s[..n][0] == s[0] && s[..n][1..] == s[1..][..n - 1];
      LineRestIs(s[1..], n - 1);
    }
  }

  /** A line comment reaches to the first newline and includes it, or to the end of the text. */
  lemma LineCommentEnds(s: Bytes, n: nat)
    requires s != [] && FirstToken(s).LineComment?
    requires n <= |s| && '\n' !in s[..n]
    requires n < |s| ==> s[n] == '\n'
    ensures FirstToken(s) == LineComment(if n < |s| then s[..n + 1] else s)
  {
    LineRestIs(s, n);
  }

  /** The two bytes that close a block comment. */
  predicate ClosesAt(s: Bytes, i: nat)
    requires i < |s|
  {
    s[i] == '*' && i + 1 < |s| && s[i + 1] == '/'
  }

  lemma {:induction false} BlockRestIs(s: Bytes, n: nat)
    requires n <= |s| && forall i | 0 <= i < n :: !ClosesAt(s, i)
    requires n < |s| ==> ClosesAt(s, n)
    ensures BlockRest(s) == if n < |s| then n + 2 else n
  {
    if n > 0 {
      assert !ClosesAt(s, 0);
      forall i | 0 <= i < n - 1
        ensures !ClosesAt(s[1..], i)
      {
        assert !ClosesAt(s, i + 1);
      }
      BlockRestIs(s[1..], n - 1);
    }
  }

  /** A block comment reaches to the first closing mark behind its opening mark, or to the end of the text. */
  lemma BlockCommentEnds(s: Bytes, n: nat)
    requires s != [] && FirstToken(s).BlockComment?
    requires 2 <= n <= |s| && forall i | 2 <= i < n :: !ClosesAt(s, i)
    requires n < |s| ==> ClosesAt(s, n)
    ensures FirstToken(s) == BlockComment(if n < |s| then s[..n + 2] else s)
  {
    var r := s[2..];
    forall i | 0 <= i < n - 2
      ensures !ClosesAt(r, i)
    {
      assert !ClosesAt(s, i + 2);
    }
    BlockRestIs(r, n - 2);
  }

  // ----- where literals end -----

  lemma QuotedFirst(s: Bytes, body: Bytes)
    requires s != [] && IsQuote(s[0]) && s == [s[0]] + body
    ensures var r := QuotedRest(body, s[0], Escapes(s[0]));
      FirstToken(s) == Quoted(s[..1 + r.len], r.closed)
  {
    hide QuotedRest;
    assert s[1..] == body;
  }

  /**
   A piece of a literal that does not close it: a doubled quote, a backslash with the byte behind it where
   backslashes escape, or any other byte.
   */
  predicate IsPiece(p: Bytes, quote: byte) {
    var escapes := quote == '\'' || quote == '"';
    || p == [quote, quote]
    || (escapes && |p| == 2 && p[0] == '\\')
    || (|p| == 1 && p[0] != quote && !(escapes && p[0] == '\\'))
  }

  function Join(ps: seq<Bytes>): Bytes {
    if ps == [] then [] else ps[0] + Join(ps[1..])
  }

  lemma OnePiece(p: Bytes, quote: byte, s: Bytes)
    requires IsQuote(quote) && IsPiece(p, quote)
    ensures QuotedRest(p + s, quote, Escapes(quote)) == QuotedRest(s, quote, Escapes(quote)).Beyond(|p|)
  {
    QuotedStep(p + s, quote, Escapes(quote));
    hide QuotedRest;
    assert (p + s)[|p|..] == s;
  }

  lemma {:induction false} PiecesAreSkipped(ps: seq<Bytes>, quote: byte, rest: Bytes)
    requires IsQuote(quote) && forall i | 0 <= i < |ps| :: IsPiece(ps[i], quote)
    ensures QuotedRest(Join(ps) + rest, quote, Escapes(quote))
         == QuotedRest(rest, quote, Escapes(quote)).Beyond(|Join(ps)|)
  {
    hide QuotedRest;
    if ps == [] {
      assert Join(ps) + rest == rest;
    } else {
      var s, s' := Join(ps) + rest, Join(ps[1..]) + rest;
      PiecesAreSkipped(ps[1..], quote, rest);
      assert s == ps[0] + s';
      assert IsPiece(ps[0], quote);
      OnePiece(ps[0], quote, s');
    }
  }

  /** A literal is a quote, pieces, and the same quote, if the text does not go on with that quote. */
  lemma LiteralEnds(ps: seq<Bytes>, quote: byte, rest: Bytes)
    requires IsQuote(quote) && forall i | 0 <= i < |ps| :: IsPiece(ps[i], quote)
    requires rest == [] || rest[0] != quote
    ensures var l := [quote] + Join(ps) + [quote];
      FirstToken(l + rest) == Quoted(l, true)
  {
    hide QuotedRest, FirstToken, IsPiece, Join;
    var l, w := [quote] + Join(ps), [quote] + rest;
    LastRounds(quote, rest);
    LiteralFrom(ps, quote, w);
    Associative(l, [quote], rest);
    Cut(l, [quote], rest);
  }

  lemma Cut(a: Bytes, b: Bytes, c: Bytes)
    ensures (a + (b + c))[..|a| + |b|] == a + b
  {
    Associative(a, b, c);
  }

  /** Without the closing quote, perhaps with a lone backslash at the end, it is open up to the end of the text. */
  lemma OpenLiteral(ps: seq<Bytes>, quote: byte)
    requires IsQuote(quote) && forall i | 0 <= i < |ps| :: IsPiece(ps[i], quote)
    ensures var l := [quote] + Join(ps);
      FirstToken(l) == Quoted(l, false) && (quote != '`' ==> FirstToken(l + "\\") == Quoted(l + "\\", false))
  {
    hide QuotedRest, FirstToken, IsPiece, Join;
    var l := [quote] + Join(ps);
    LastRounds(quote, []);
    LiteralFrom(ps, quote, []);
    LiteralFrom(ps, quote, "\\");
    assert l + [] == l && l[..|l|] == l;
    assert (l + "\\")[..|l| + 1] == l + "\\";
  }

  /** The last round of skipQuoted: the closing quote, the end of the text, or a lone backslash in front of it. */
  lemma LastRounds(quote: byte, rest: Bytes)
    requires IsQuote(quote)
    ensures rest == [] || rest[0] != quote ==> QuotedRest([quote] + rest, quote, Escapes(quote)) == Extent(1, true)
    ensures QuotedRest([], quote, Escapes(quote)) == Extent(0, false)
    ensures quote != '`' ==> QuotedRest("\\", quote, Escapes(quote)) == Extent(1, false)
  {
    QuotedStep([quote] + rest, quote, Escapes(quote));
    QuotedStep("\\", quote, Escapes(quote));
    assert ([quote] + rest)[1..] == rest;
  }

  lemma LiteralFrom(ps: seq<Bytes>, quote: byte, w: Bytes)
    requires IsQuote(quote) && forall i | 0 <= i < |ps| :: IsPiece(ps[i], quote)
    ensures var l, r := [quote] + Join(ps), QuotedRest(w, quote, Escapes(quote));
      |l| + r.len <= |l + w| && FirstToken(l + w) == Quoted((l + w)[..|l| + r.len], r.closed)
  {
    hide QuotedRest, FirstToken, IsPiece, Join;
    var l := [quote] + Join(ps);
    PiecesAreSkipped(ps, quote, w);
    assert l + w == [quote] + (Join(ps) + w);
    QuotedFirst(l + w, Join(ps) + w);
  }

  /** Every text behind a quote is made of pieces up to where its literal ends: no text is left undescribed. */
  lemma {:induction false} TextIsPieces(s: Bytes, quote: byte) returns (ps: seq<Bytes>, rest: Bytes)
    requires IsQuote(quote)
    ensures forall i | 0 <= i < |ps| :: IsPiece(ps[i], quote)
    ensures s == Join(ps) + rest
    ensures rest == [] || (rest == "\\" && quote != '`') ||
            (rest[0] == quote && (|rest| == 1 || rest[1] != quote))
    decreases |s|
  {
    if s == [] || (s == "\\" && quote != '`') || (s[0] == quote && (|s| == 1 || s[1] != quote)) {
      ps, rest := [], s;
      assert Join(ps) + rest == s;
    } else {
      var n := if s[0] == quote || (s[0] == '\\' && quote != '`') then 2 else 1;
      var ps';
      ps', rest := TextIsPieces(s[n..], quote);
      ps := [s[..n]] + ps';
      assert ps[1..] == ps' && s == s[..n] + s[n..];
      assert Join(ps) + rest == s[..n] + (Join(ps') + rest);
    }
  }

  // ----- codeEnd -----

  /** The scan stops behind the last literal or other code: behind it are blanks and comments only. */
  lemma CodeEndIsTheLastCode(q: Bytes) returns (n: nat)
    ensures var ts := Tokenize(q);
      && n <= |ts| && CodeEndOf(q) == |Flatten(ts[..n])|
      && q == Flatten(ts[..n]) + Flatten(ts[n..])
      && (n > 0 ==> ts[n - 1].Quoted? || ts[n - 1].Code?)
      && forall i | n <= i < |ts| :: ts[i].Blank? || ts[i].LineComment? || ts[i].BlockComment?
  {
    hide FirstToken, Tokenize, Flatten;
    var ts := Tokenize(q);
    n := |Head(ts)|;
    TokensCoverTheText(q);
    FlattenAppend(ts[..n], ts[n..]);
    assert ts == ts[..n] + ts[n..] && Head(ts) == ts[..n];
    hide Head;
  }
}
