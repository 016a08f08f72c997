/**
 What happens to the tokens of a query when text is inserted behind its last significant byte.
 The inserted text starts with a space, as the clause of WithLimitOffset does.
 */
module SqlInsertion {
  import opened GoStrings
  import opened SqlTokens

  /** What can follow a head: nothing, or text that starts with a space. */
  predicate Detached(u: Bytes) {
    u == [] || u[0] == ' '
  }

  /**
   Replacing what follows the head `h`, from `v` to `u`, is harmless when `u` is detached and `h`
   does not end in two dashes, or when both continuations start with the same two bytes.
   */
  predicate Harmless(h: Bytes, v: Bytes, u: Bytes) {
    || (Detached(u) && !EndsInDashes(h))
    || (|u| >= 2 && |v| >= 2 && u[0] == v[0] && u[1] == v[1])
  }

  // ----- a token depends only on a little of what follows it -----

  lemma TakeAndDrop(s: Bytes, n: nat, w: Bytes, k: nat)
    requires k <= n <= |s|
    ensures (s[..n] + w)[k..] == s[k..][..n - k] + w
  {
  }

  lemma {:induction false} QuotedRestLocal(s: Bytes, quote: byte, backslash: bool, n: nat, w: Bytes)
    requires QuotedRest(s, quote, backslash) == Extent(n, true)
    requires w != [] ==> w[0] != quote
    ensures QuotedRest(s[..n] + w, quote, backslash) == Extent(n, true)
    decreases |s|
  {
    var escape := backslash && s[0] == '\\';
    if escape || (s[0] == quote && |s| > 1 && s[1] == quote) {
      TakeAndDrop(s, n, w, 2);
      QuotedRestLocal(s[2..], quote, backslash, n - 2, w);
    } else if s[0] != quote {
      TakeAndDrop(s, n, w, 1);
      QuotedRestLocal(s[1..], quote, backslash, n - 1, w);
    }
  }

  lemma {:induction false} LineRestLocal(s: Bytes, n: nat, w: Bytes)
    requires LineRest(s) == n < |s|
    ensures LineRest(s[..n] + w) == n
  {
    if s[0] != '\n' {
      LineRestLocal(s[1..], n - 1, w);
      TakeAndDrop(s, n, w, 1);
    }
  }

  lemma {:induction false} BlockRestLocal(s: Bytes, n: nat, w: Bytes)
    requires BlockRest(s) == n < |s|
    ensures BlockRest(s[..n] + w) == n
  {
    if !(s[0] == '*' && s[1] == '/') {
      BlockRestLocal(s[1..], n - 1, w);
      TakeAndDrop(s, n, w, 1);
    }
  }

  lemma QuotedLocal(t: Token, v: Bytes, w: Bytes)
    requires t.Quoted? && t.closed && t.text != []
    requires FirstToken(t.text + v) == t
    requires w != [] ==> w[0] == ' ' || (v != [] && w[0] == v[0])
    ensures FirstToken(t.text + w) == t
  {
    hide QuotedRest;
    var s, n := t.text + v, |t.text|;
    var quote := s[0];
    assert s[..n] == t.text;
    TakeAndDrop(s, n, w, 1);
    QuotedRestLocal(s[1..], quote, Escapes(quote), n - 1, w);
  }

  lemma LineCommentLocal(t: Token, v: Bytes, w: Bytes)
    requires t.LineComment? && t.text != []
    requires FirstToken(t.text + v) == t
    requires v != []
    ensures FirstToken(t.text + w) == t
  {
    LineRestLocal(t.text + v, |t.text|, w);
    assert (t.text + v)[..|t.text|] == t.text;
  }

  lemma BlockCommentLocal(t: Token, v: Bytes, w: Bytes)
    requires t.BlockComment? && t.text != []
    requires FirstToken(t.text + v) == t
    requires v != []
    ensures FirstToken(t.text + w) == t
  {
    hide LineRest, QuotedRest;
    var s, n := t.text + v, |t.text|;
    assert s[..n] == t.text && |s| > n;
    assert n == 2 + BlockRest(s[2..]);
    BlockRestLocal(s[2..], n - 2, w);
    hide BlockRest;
    TakeAndDrop(s, n, w, 2);
    assert (t.text + w)[..n] == t.text;
  }

  lemma CodeLocal(t: Token, p: Bytes, v: Bytes, u: Bytes)
    requires t.Code? && t.text != []
    requires FirstToken(t.text + (p + v)) == t
    requires Harmless(t.text + p, v, u)
    ensures FirstToken(t.text + (p + u)) == t
  {
    var s, s' := t.text + (p + v), t.text + (p + u);
    assert p != [] ==> s[1] == p[0] == s'[1];
    assert |p| > 1 ==> s[2] == p[1] == s'[2];
    if !Detached(u) {
      assert s[|p| + 1] == v[0] == u[0] == s'[|p| + 1];
      assert s[|p| + 2] == v[1] == u[1] == s'[|p| + 2];
    }
  }

  /**
   Replacing what follows a token: `p` is the rest of the head, `v` the old continuation and `u`
   the new one.
   */
  lemma FirstTokenLocal(t: Token, p: Bytes, v: Bytes, u: Bytes)
    requires t.text != [] && FirstToken(t.text + (p + v)) == t
    requires p + v == [] ==> t.Significant()
    requires t.Quoted? ==> t.closed
    requires Harmless(t.text + p, v, u)
    ensures FirstToken(t.text + (p + u)) == t
  {
    match t
    case Quoted(_, _) => QuotedLocal(t, p + v, p + u);
    case LineComment(_) => LineCommentLocal(t, p + v, p + u);
    case BlockComment(_) => BlockCommentLocal(t, p + v, p + u);
    case Blank(_) =>
    case Code(_) => CodeLocal(t, p, v, u);
  }

  // ----- from one token to a whole head -----

  lemma TokenizeCons(t: Token, rest: Bytes)
    requires t.text != [] && FirstToken(t.text + rest) == t
    ensures Tokenize(t.text + rest) == [t] + Tokenize(rest)
  {
    assert (t.text + rest)[|t.text|..] == rest;
  }

  lemma FirstTokenSurvives(t: Token, p: Bytes, v: Bytes, u: Bytes)
    requires t.text != [] && FirstToken(t.text + (p + v)) == t
    requires p + v == [] ==> t.Significant()
    requires t.Quoted? ==> t.closed
    requires Harmless(t.text + p, v, u)
    ensures Tokenize(t.text + (p + u)) == [t] + Tokenize(p + u)
  {
    FirstTokenLocal(t, p, v, u);
    TokenizeCons(t, p + u);
  }

  lemma UncoverFirst(q: Bytes, hs: seq<Token>, rs: seq<Token>)
    requires Tokenize(q) == hs + rs && hs != []
    ensures var p, v := Flatten(hs[1..]), Flatten(rs);
      && q == hs[0].text + (p + v) && hs[0].text != []
      && FirstToken(hs[0].text + (p + v)) == hs[0]
      && Tokenize(p + v) == hs[1..] + rs
    ensures |hs| > 1 ==> Flatten(hs[1..]) != []
  {
    hide FirstToken;
    assert (hs + rs)[0] == hs[0] && (hs + rs)[1..] == hs[1..] + rs;
    TokensCoverTheText(q[|hs[0].text|..]);
    FlattenAppend(hs[1..], rs);
  }

  lemma PutBack(hs: seq<Token>, u: Bytes, zs: seq<Token>)
    requires hs != []
    ensures Flatten(hs) + u == hs[0].text + (Flatten(hs[1..]) + u)
    ensures hs + zs == [hs[0]] + (hs[1..] + zs)
  {
    Associative(hs[0].text, Flatten(hs[1..]), u);
    Associative([hs[0]], hs[1..], zs);
    assert [hs[0]] + hs[1..] == hs;
  }

  /** The tokens of a head survive any harmless continuation. */
  lemma {:induction false} HeadSurvives(q: Bytes, hs: seq<Token>, rs: seq<Token>, u: Bytes)
    requires Tokenize(q) == hs + rs
    requires hs == [] || rs != [] || hs[|hs| - 1].Significant()
    requires AllClosed(hs)
    requires Harmless(Flatten(hs), Flatten(rs), u)
    requires rs != [] ==> Flatten(rs) != []
    ensures Tokenize(Flatten(hs) + u) == hs + Tokenize(u)
    decreases hs
  {
    hide FirstToken;
    if hs == [] {
      assert Flatten(hs) + u == u;
      assert hs + Tokenize(u) == Tokenize(u);
    } else {
      var t, p := hs[0], Flatten(hs[1..]);
      UncoverFirst(q, hs, rs);
      assert Flatten(hs) == t.text + p;
      HeadSurvives(p + Flatten(rs), hs[1..], rs, u);
      FirstTokenSurvives(t, p, Flatten(rs), u);
      PutBack(hs, u, Tokenize(u));
    }
  }

  // ----- where the insertion goes wrong -----

  lemma TokensInContext(q: Bytes, hs: seq<Token>, zs: seq<Token>, i: nat)
    requires Tokenize(q) == hs + zs && i < |hs|
    ensures Flatten(hs[..i]) < q && FirstToken(q[|Flatten(hs[..i])|..]) == hs[i]
    ensures Flatten(hs) == Flatten(hs[..i]) + (hs[i].text + Flatten(hs[i + 1..]))
  {
    hide FirstToken;
    assert hs + zs == hs[..i] + (hs[i..] + zs);
    SplitTokens(q, hs[..i], hs[i..] + zs);
    FlattenAppend(hs[..i], hs[i..]);
    assert hs == hs[..i] + hs[i..];
    assert hs[i..][1..] == hs[i + 1..];
  }

  /** A head that holds a literal without an end swallows whatever is appended to it. */
  lemma UnclosedLiteralSwallows(hs: seq<Token>, u: Bytes, zs: seq<Token>)
    requires !AllClosed(hs)
    requires u != []
    ensures Tokenize(Flatten(hs) + u) != hs + zs
  {
    if Tokenize(Flatten(hs) + u) == hs + zs {
      var i :| 0 <= i < |hs| && hs[i].Quoted? && !hs[i].closed;
      TokensInContext(Flatten(hs) + u, hs, zs, i);
      TokenEnds((Flatten(hs) + u)[|Flatten(hs[..i])|..]);
      assert false;
    }
  }

  /** A token that ends in a dash and is not a comment at the end of the query is that dash. */
  lemma DashToken(q: Bytes, hs: seq<Token>, rs: seq<Token>, i: nat)
    requires Tokenize(q) == hs + rs && i < |hs|
    requires hs[i].Quoted? ==> hs[i].closed
    requires i + 1 == |hs| ==> hs[i].Significant()
    requires hs[i].text != [] && hs[i].text[|hs[i].text| - 1] == '-'
    ensures hs[i].text == "-"
  {
    hide FirstToken;
    TokensInContext(q, hs, rs, i);
    var s := q[|Flatten(hs[..i])|..];
    TokenEnds(s);
    if i + 1 < |hs| {
      TokensInContext(q, hs, rs, i + 1);
      assert Flatten(hs[..i + 1]) == Flatten(hs[..i]) + hs[i].text by {
        assert hs[..i + 1] == hs[..i] + [hs[i]];
        FlattenAppend(hs[..i], [hs[i]]);
      }
      assert |hs[i].text| < |s|;
    }
  }

  lemma FlattenDashes(hs: seq<Token>)
    requires forall i | 0 <= i < |hs| :: hs[i].text == "-"
    requires |hs| < 2
    ensures Flatten(hs) == if hs == [] then "" else "-"
  {
  }

  lemma LastDash(q: Bytes, hs: seq<Token>, rs: seq<Token>, i: nat)
    requires Tokenize(q) == hs + rs
    requires |hs| - 2 <= i < |hs| && hs[|hs| - 1].Significant()
    requires i + 1 < |hs| ==> hs[i + 1].text == "-"
    requires AllClosed(hs)
    requires EndsInDashes(Flatten(hs))
    ensures hs[i].text == "-"
    ensures i + 1 == |hs| ==> i > 0
  {
    hide Tokenize, Flatten, FirstToken;
    TokensInContext(q, hs, rs, i);
    FlattenDashes(hs[i + 1..]);
    DashToken(q, hs, rs, i);
  }

  /** Two dashes at the end of a scanned head are two tokens of their own. */
  lemma TrailingDashes(q: Bytes, hs: seq<Token>, rs: seq<Token>)
    requires Tokenize(q) == hs + rs
    requires hs != [] && hs[|hs| - 1].Significant()
    requires AllClosed(hs)
    requires EndsInDashes(Flatten(hs))
    ensures |hs| >= 2 && hs[|hs| - 2].text == "-" && hs[|hs| - 1].text == "-"
  {
    var n := |hs| - 1;
    LastDash(q, hs, rs, n);
    if n > 0 {
      LastDash(q, hs, rs, n - 1);
    }
  }

  lemma BeforeTheDashes(hs: seq<Token>, m: nat, u: Bytes)
    requires m + 2 == |hs| && hs[m].text == "-" && hs[m + 1].text == "-"
    ensures Flatten(hs[..m]) <= Flatten(hs)
    ensures (Flatten(hs) + u)[|Flatten(hs[..m])|..] == "--" + u
  {
    var before := Flatten(hs[..m]);
    assert hs == hs[..m] + [hs[m], hs[m + 1]];
    FlattenAppend(hs[..m], [hs[m], hs[m + 1]]);
    assert Flatten([hs[m], hs[m + 1]]) == "--" by {
      FlattenDashes([hs[m], hs[m + 1]][1..]);
    }
    Associative(before, "--", u);
    assert (before + ("--" + u))[|before|..] == "--" + u;
  }

  lemma DashesBeforeASpace(u: Bytes)
    requires Detached(u)
    ensures |FirstToken("--" + u).text| >= 2
  {
    assert ("--" + u)[1..] == "-" + u;
  }

  /** Followed by a space or by nothing, two trailing dashes become a comment. */
  lemma TrailingDashesBecomeAComment(q: Bytes, hs: seq<Token>, rs: seq<Token>, u: Bytes, zs: seq<Token>)
    requires Tokenize(q) == hs + rs
    requires hs != [] && hs[|hs| - 1].Significant()
    requires AllClosed(hs)
    requires EndsInDashes(Flatten(hs))
    requires Detached(u)
    ensures Tokenize(Flatten(hs) + u) != hs + zs
  {
    hide FirstToken;
    TrailingDashes(q, hs, rs);
    if Tokenize(Flatten(hs) + u) == hs + zs {
      var m := |hs| - 2;
      TokensInContext(Flatten(hs) + u, hs, zs, m);
      BeforeTheDashes(hs, m, u);
      DashesBeforeASpace(u);
      assert false;
    }
  }

  /** When the insertion is safe: a condition on the query before it. */
  predicate InsertionSafe(q: Bytes) {
    var ts := Tokenize(q);
    AllClosed(ts) && !EndsInDashes(Flatten(Head(ts)))
  }

  lemma TokensHaveText(q: Bytes, hs: seq<Token>, rs: seq<Token>)
    requires Tokenize(q) == hs + rs
    ensures rs != [] ==> Flatten(rs) != []
  {
    SplitTokens(q, hs, rs);
  }

  lemma HeadAndTail(q: Bytes)
    ensures var ts := Tokenize(q);
      && ts == Head(ts) + Tail(ts)
      && q == Flatten(Head(ts)) + Flatten(Tail(ts))
      && Tokenize(Flatten(Tail(ts))) == Tail(ts)
  {
    var ts := Tokenize(q);
    TokensCoverTheText(q);
    FlattenAppend(Head(ts), Tail(ts));
    SplitTokens(q, Head(ts), Tail(ts));
    assert q[|Flatten(Head(ts))|..] == Flatten(Tail(ts));
  }

  /**
   The insertion theorem. Text behind the last significant byte leaves every token of the query
   as it was exactly when no literal is left open and the significant part does not end in "--".
   */
  lemma InsertionTheorem(q: Bytes, u: Bytes)
    requires u != [] && u[0] == ' '
    ensures var ts := Tokenize(q);
      (exists zs :: Tokenize(Flatten(Head(ts)) + u) == Head(ts) + zs) <==> InsertionSafe(q)
    ensures var ts := Tokenize(q);
      InsertionSafe(q) ==> Tokenize(Flatten(Head(ts)) + u) == Head(ts) + Tokenize(u)
  {
    var ts := Tokenize(q);
    var hs := Head(ts);
    HeadAndTail(q);
    if InsertionSafe(q) {
      TokensHaveText(q, hs, Tail(ts));
      HeadSurvives(q, hs, Tail(ts), u);
    } else {
      forall zs
        ensures Tokenize(Flatten(hs) + u) != hs + zs
      {
        if !AllClosed(ts) {
          assert !AllClosed(hs);
          UnclosedLiteralSwallows(hs, u, zs);
        } else {
          TrailingDashesBecomeAComment(q, hs, Tail(ts), u, zs);
        }
      }
    }
  }
}
