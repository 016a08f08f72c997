/**
 The lexical structure that the tail scanner of internal/sqlguard/rewrite.go gives to a query,
 as a tokenizer that always looks at what is left of the text. What the first token is depends
 on nothing before it, which is what makes an insertion in the middle of a query analysable.
 */
module SqlTokens {
  import opened GoStrings

  /** A piece of SQL text. `closed` is false for a literal that runs into the end of the query. */
  datatype Token =
    | Quoted(text: Bytes, closed: bool)
    | LineComment(text: Bytes)
    | BlockComment(text: Bytes)
    | Blank(text: Bytes)
    | Code(text: Bytes)
  {
    predicate Significant() {
      Quoted? || Code?
    }
  }

  predicate IsSpaceByte(c: byte) {
    c == ' ' || c == '\t' || c == '\n' || c == '\r' || c == '\U{000B}' || c == '\U{000C}'
  }

  /** unicode.IsSpace on a single byte: the bytes 0x85 and 0xA0 count as white space as well. */
  predicate IsUnicodeSpace(c: byte) {
    IsSpaceByte(c) || c == '\U{0085}' || c == '\U{00A0}'
  }

  /** "--" opens a comment only before white space or the end of the input. */
  predicate IsLineCommentDash(q: Bytes, i: nat)
    requires i < |q|
  {
    && i + 1 < |q|
    && q[i + 1] == '-'
    && (i + 2 >= |q| || IsUnicodeSpace(q[i + 2]))
  }

  predicate IsQuote(c: byte) {
    c == '\'' || c == '"' || c == '`'
  }

  /** A backslash escapes the next byte inside '…' and "…", not inside `…`. */
  predicate Escapes(quote: byte) {
    quote != '`'
  }

  datatype Extent = Extent(len: nat, closed: bool) {
    function Beyond(n: nat): Extent {
      Extent(n + len, closed)
    }
  }

  /** How far a literal reaches into s, the text behind its opening quote. */
  function QuotedRest(s: Bytes, quote: byte, backslash: bool): (r: Extent)
    ensures r.len <= |s|
    ensures !r.closed ==> r.len == |s|
    ensures r.closed ==> r.len > 0 && s[r.len - 1] == quote
    ensures r.closed && r.len < |s| ==> s[r.len] != quote
  {
    if s == [] then
      Extent(0, false)
    else if backslash && s[0] == '\\' then
      if |s| == 1 then Extent(1, false) else QuotedRest(s[2..], quote, backslash).Beyond(2)
    else if s[0] == quote then
      if |s| > 1 && s[1] == quote then QuotedRest(s[2..], quote, backslash).Beyond(2) else Extent(1, true)
    else
      QuotedRest(s[1..], quote, backslash).Beyond(1)
  }

  /** How far a line comment reaches into s, its newline included. */
  function LineRest(s: Bytes): (n: nat)
    ensures n <= |s|
    ensures s != [] ==> n > 0
    ensures n < |s| ==> s[n - 1] == '\n'
  {
    if s == [] then 0 else if s[0] == '\n' then 1 else 1 + LineRest(s[1..])
  }

  /** How far a block comment reaches into s, the text behind its opening mark. */
  function BlockRest(s: Bytes): (n: nat)
    ensures n <= |s|
    ensures n < |s| ==> n >= 2 && s[n - 2] == '*' && s[n - 1] == '/'
  {
    if |s| < 2 then |s| else if s[0] == '*' && s[1] == '/' then 2 else 1 + BlockRest(s[1..])
  }

  function FirstToken(s: Bytes): (t: Token)
    requires s != []
    ensures t.text != [] && t.text <= s
  {
    var c := s[0];
    if IsQuote(c) then
      var r := QuotedRest(s[1..], c, Escapes(c));
      Quoted(s[..1 + r.len], r.closed)
    else if c == '#' || (c == '-' && IsLineCommentDash(s, 0)) then
      LineComment(s[..LineRest(s)])
    else if c == '/' && |s| > 1 && s[1] == '*' then
      BlockComment(s[..2 + BlockRest(s[2..])])
    else if c == ';' || IsSpaceByte(c) then
      Blank([c])
    else
      Code([c])
  }

  function Tokenize(s: Bytes): seq<Token>
    decreases |s|
  {
    if s == [] then []
    else
      var t := FirstToken(s);
      [t] + Tokenize(s[|t.text|..])
  }

  function Flatten(ts: seq<Token>): Bytes {
    if ts == [] then [] else ts[0].text + Flatten(ts[1..])
  }

  /** The tokens up to the last significant one. */
  function Head(ts: seq<Token>): (h: seq<Token>)
    ensures h <= ts
    ensures h != [] ==> h[|h| - 1].Significant()
    ensures forall i | |h| <= i < |ts| :: !ts[i].Significant()
  {
    if ts == [] || ts[|ts| - 1].Significant() then ts else Head(ts[..|ts| - 1])
  }

  /** The tokens behind the last significant one. */
  function Tail(ts: seq<Token>): seq<Token> {
    ts[|Head(ts)|..]
  }

  /** The text of the significant tokens alone. */
  function SignificantText(ts: seq<Token>): Bytes {
    if ts == [] then []
    else (if ts[0].Significant() then ts[0].text else []) + SignificantText(ts[1..])
  }

  predicate AllClosed(ts: seq<Token>) {
    forall i | 0 <= i < |ts| :: ts[i].Quoted? ==> ts[i].closed
  }

  predicate EndsInDashes(s: Bytes) {
    |s| >= 2 && s[|s| - 2] == '-' && s[|s| - 1] == '-'
  }

  // ----- concatenation -----

  lemma Associative<T>(a: seq<T>, b: seq<T>, c: seq<T>)
    ensures a + (b + c) == (a + b) + c
  {
  }

  lemma {:induction false} FlattenAppend(ps: seq<Token>, rs: seq<Token>)
    ensures Flatten(ps + rs) == Flatten(ps) + Flatten(rs)
  {
    if ps == [] {
      assert ps + rs == rs;
    } else {
      FlattenAppend(ps[1..], rs);
      assert ps + rs != [] && (ps + rs)[0] == ps[0] && (ps + rs)[1..] == ps[1..] + rs;
      assert Flatten(ps + rs) == ps[0].text + Flatten(ps[1..] + rs);
      Associative(ps[0].text, Flatten(ps[1..]), Flatten(rs));
    }
  }

  lemma {:induction false} SignificantTextAppend(ps: seq<Token>, rs: seq<Token>)
    ensures SignificantText(ps + rs) == SignificantText(ps) + SignificantText(rs)
  {
    if ps == [] {
      assert ps + rs == rs;
    } else {
      SignificantTextAppend(ps[1..], rs);
      assert (ps + rs)[0] == ps[0] && (ps + rs)[1..] == ps[1..] + rs;
      Associative(if ps[0].Significant() then ps[0].text else [], SignificantText(ps[1..]), SignificantText(rs));
    }
  }

  lemma {:induction false} TriviaHasNoSignificantText(ts: seq<Token>)
    requires forall i | 0 <= i < |ts| :: !ts[i].Significant()
    ensures SignificantText(ts) == []
  {
    if ts != [] {
      TriviaHasNoSignificantText(ts[1..]);
    }
  }

  lemma {:induction false} HeadOfAppend(hs: seq<Token>, rs: seq<Token>)
    requires hs == [] || hs[|hs| - 1].Significant()
    requires forall i | 0 <= i < |rs| :: !rs[i].Significant()
    ensures Head(hs + rs) == hs && Tail(hs + rs) == rs
  {
    if rs == [] {
      assert hs + rs == hs;
    } else {
      HeadOfAppend(hs, rs[..|rs| - 1]);
      assert (hs + rs)[..|hs + rs| - 1] == hs + rs[..|rs| - 1];
    }
  }

  // ----- the tokenizer cuts the query up and never looks back -----

  /** No byte is lost, doubled or moved. */
  lemma {:induction false} TokensCoverTheText(q: Bytes)
    ensures Flatten(Tokenize(q)) == q
    decreases |q|
  {
    hide FirstToken;
    if q != [] {
      var t := FirstToken(q);
      TokensCoverTheText(q[|t.text|..]);
      assert Tokenize(q)[1..] == Tokenize(q[|t.text|..]);
    }
  }

  /** Any split of the token list is a split of the text, and the rest scans on its own. */
  lemma {:induction false} SplitTokens(q: Bytes, ps: seq<Token>, rs: seq<Token>)
    requires Tokenize(q) == ps + rs
    ensures Flatten(ps) <= q
    ensures Tokenize(q[|Flatten(ps)|..]) == rs
    ensures rs != [] ==> |Flatten(ps)| < |q| && FirstToken(q[|Flatten(ps)|..]) == rs[0]
    decreases ps
  {
    hide FirstToken;
    if ps == [] {
      assert ps + rs == rs;
    } else {
      var t := FirstToken(q);
      assert (ps + rs)[0] == ps[0] && (ps + rs)[1..] == ps[1..] + rs;
      var q' := q[|t.text|..];
      SplitTokens(q', ps[1..], rs);
      assert q'[|Flatten(ps[1..])|..] == q[|Flatten(ps)|..];
    }
  }

  /** What the last byte of a token can be when the token is not the last one. */
  lemma TokenEnds(s: Bytes)
    requires s != []
    ensures var t := FirstToken(s);
      && (t.Quoted? && t.closed ==> |t.text| >= 2 && t.text[|t.text| - 1] == s[0] && IsQuote(s[0]))
      && (t.Quoted? && !t.closed ==> t.text == s)
      && (|t.text| < |s| && t.LineComment? ==> t.text[|t.text| - 1] == '\n')
      && (|t.text| < |s| && t.BlockComment? ==> t.text[|t.text| - 1] == '/')
      && (t.Blank? ==> |t.text| == 1 && t.text[0] != '-')
      && (t.Code? ==> |t.text| == 1)
  {
  }
}
