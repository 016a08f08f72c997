/**
 internal/sqlguard/rewrite.go: the loops of the tail scanner, and the insertion of a LIMIT clause
 at the place they find.
 */
module SqlGuard {
  import opened GoStrings
  import opened SqlTokens
  import opened SqlInsertion

  /** Facts about the top-level query. The parser that fills them in is not part of this model. */
  datatype Info = Info(hasLimit: bool, hasOffset: bool, limit: int, offset: int, codeEnd: int)

  /** The offset behind the last significant byte, read off the tokens. */
  function CodeEndOf(q: Bytes): (c: nat)
    ensures c <= |q|
  {
    HeadAndTail(q);
    |Flatten(Head(Tokenize(q)))|
  }

  // ----- the scanner's loops -----

  method SkipLineComment(q: Bytes, i: nat) returns (k: nat)
    requires i <= |q|
    ensures k == i + LineRest(q[i..]) <= |q|
    ensures forall j | i <= j < k - 1 :: q[j] != '\n'
    ensures k < |q| ==> i < k && q[k - 1] == '\n'
  {
    k := i;
    while k < |q|
      invariant i <= k <= |q| && forall j | i <= j < k :: q[j] != '\n'
      invariant k + LineRest(q[k..]) == i + LineRest(q[i..])
    {
      assert q[k..][1..] == q[k + 1..];
      if q[k] == '\n' {
        return k + 1;
      }
      k := k + 1;
    }
  }

  lemma BlockStep(s: Bytes)
    ensures |s| < 2 ==> BlockRest(s) == |s|
    ensures |s| >= 2 ==> BlockRest(s) == if s[0] == '*' && s[1] == '/' then 2 else 1 + BlockRest(s[1..])
  {
  }

  method SkipBlockComment(q: Bytes, i: nat) returns (k: nat)
    requires i + 2 <= |q|
    ensures k == i + 2 + BlockRest(q[i + 2..]) <= |q|
    ensures forall j | i + 2 <= j < k - 2 :: !(q[j] == '*' && q[j + 1] == '/')
    ensures k < |q| ==> i + 4 <= k && q[k - 2] == '*' && q[k - 1] == '/'
  {
    hide BlockRest;
    var j := i + 2;
    while j + 1 < |q|
      invariant i + 2 <= j <= |q|
      invariant forall m | i + 2 <= m < j :: !(q[m] == '*' && m + 1 < |q| && q[m + 1] == '/')
      invariant j + BlockRest(q[j..]) == i + 2 + BlockRest(q[i + 2..])
    {
      assert q[j..][1..] == q[j + 1..];
      BlockStep(q[j..]);
      if q[j] == '*' && q[j + 1] == '/' {
        return j + 2;
      }
      j := j + 1;
    }
    BlockStep(q[j..]);
    return |q|;
  }

  /** One round of skipQuoted, seen from the text that is left. */
  lemma QuotedStep(s: Bytes, quote: byte, backslash: bool)
    ensures QuotedRest([], quote, backslash).len == 0
    ensures s != [] ==> (QuotedRest(s, quote, backslash) ==
      if backslash && s[0] == '\\' then
        if |s| == 1 then Extent(1, false) else QuotedRest(s[2..], quote, backslash).Beyond(2)
      else if s[0] == quote then
        if |s| > 1 && s[1] == quote then QuotedRest(s[2..], quote, backslash).Beyond(2) else Extent(1, true)
      else QuotedRest(s[1..], quote, backslash).Beyond(1))
  {
  }

  method SkipQuoted(q: Bytes, i: nat, quote: byte, backslash: bool) returns (k: nat)
    requires i < |q|
    ensures k == i + 1 + QuotedRest(q[i + 1..], quote, backslash).len <= |q|
  {
    hide QuotedRest;
    var j := i + 1;
    ghost var end := i + 1 + QuotedRest(q[i + 1..], quote, backslash).len;
    while j < |q|
      invariant i + 1 <= j <= |q| + 1
      invariant end == if j <= |q| then j + QuotedRest(q[j..], quote, backslash).len else |q|
    {
      QuotedStep(q[j..], quote, backslash);
      assert q[j..][1..] == q[j + 1..];
      assert j + 1 < |q| ==> q[j..][2..] == q[j + 2..];
      if backslash && q[j] == '\\' {
        j := j + 1;
      } else if q[j] == quote {
        if j + 1 < |q| && q[j + 1] == quote {
          j := j + 1;
        } else {
          return j + 1;
        }
      }
      j := j + 1;
    }
    return |q|;
  }

  /** The scan has turned q[..i] into `done`, and `end` is where the last significant byte ended. */
  ghost predicate Scanned(q: Bytes, done: seq<Token>, i: nat, end: nat) {
    && i <= |q|
    && Tokenize(q) == done + Tokenize(q[i..])
    && i == |Flatten(done)|
    && end == |Flatten(Head(done))|
  }

  /** The loop refines the tokenizer: it stops behind the last significant token, 0 if there is none. */
  method CodeEnd(q: Bytes) returns (end: nat)
    ensures end == CodeEndOf(q)
  {
    hide FirstToken, Scanned, CodeEndOf, QuotedRest, LineRest, BlockRest;
    end := 0;
    var i := 0;
    ghost var done: seq<Token> := [];
    ScanStart(q);
    while i < |q|
      invariant i <= |q| && Scanned(q, done, i, end)
    {
      var c := q[i];
      ghost var from := i;
      FirstTokenAt(q, i);
      ScanStep(q, done, i, end);
      if c == '\'' || c == '"' {
        i := SkipQuoted(q, i, c, true);
        end := i;
      } else if c == '`' {
        i := SkipQuoted(q, i, c, false);
        end := i;
      } else if c == '#' {
        i := SkipLineComment(q, i);
      } else if c == '-' && IsLineCommentDash(q, i) {
        i := SkipLineComment(q, i);
      } else if c == '/' && i + 1 < |q| && q[i + 1] == '*' {
        i := SkipBlockComment(q, i);
      } else if c == ';' || IsSpaceByte(c) {
        i := i + 1;
      } else {
        i := i + 1;
        end := i;
      }
      done := done + [FirstToken(q[from..])];
    }
    ScanStop(q, done, end);
  }

  lemma ScanStart(q: Bytes)
    ensures Scanned(q, [], 0, 0)
  {
    assert q[0..] == q;
    assert [] + Tokenize(q) == Tokenize(q);
  }

  lemma ScanStop(q: Bytes, done: seq<Token>, end: nat)
    requires Scanned(q, done, |q|, end)
    ensures end == CodeEndOf(q)
  {
    assert done + Tokenize(q[|q|..]) == done;
  }

  /** What the scanner's switch sees at offset i. */
  lemma FirstTokenAt(q: Bytes, i: nat)
    requires i < |q|
    ensures var t, c := FirstToken(q[i..]), q[i];
      && (IsQuote(c) <==> t.Quoted?)
      && (t.Quoted? ==> |t.text| == 1 + QuotedRest(q[i + 1..], c, Escapes(c)).len)
      && (t.LineComment? <==> c == '#' || (c == '-' && IsLineCommentDash(q, i)))
      && (t.LineComment? ==> |t.text| == LineRest(q[i..]))
      && (t.BlockComment? <==> c == '/' && i + 1 < |q| && q[i + 1] == '*')
      && (t.BlockComment? ==> |t.text| == 2 + BlockRest(q[i + 2..]))
      && (t.Blank? <==> c == ';' || IsSpaceByte(c))
      && (t.Blank? || t.Code? ==> |t.text| == 1)
  {
    assert q[i..][1..] == q[i + 1..];
    assert i + 2 <= |q| ==> q[i..][2..] == q[i + 2..];
  }

  lemma ScanStep(q: Bytes, done: seq<Token>, i: nat, end: nat)
    requires i < |q| && Scanned(q, done, i, end)
    ensures var t := FirstToken(q[i..]);
      var i' := i + |t.text|;
      Scanned(q, done + [t], i', if t.Significant() then i' else end)
  {
    hide FirstToken;
    var t := FirstToken(q[i..]);
    FlattenAppend(done, [t]);
    Associative(done, [t], Tokenize(q[i + |t.text|..]));
    assert q[i..][|t.text|..] == q[i + |t.text|..];
    assert (done + [t])[..|done + [t]| - 1] == done;
  }
}
