/**
 internal/metabase/oauth/source.go: whether a saved token record belongs to the present configuration.
 The scopes are compared after sorting, as multisets.
 */
module TokenRecord {
  import opened Wrappers
  import opened GoStrings

  /** Byte-wise order of strings. */
  predicate AtMost(a: Bytes, b: Bytes) {
    a == [] || (b != [] && (a[0] < b[0] || (a[0] == b[0] && AtMost(a[1..], b[1..]))))
  }

  lemma {:induction false} AtMostTotal(a: Bytes, b: Bytes)
    ensures AtMost(a, b) || AtMost(b, a)
  {
    if a != [] && b != [] {
      AtMostTotal(a[1..], b[1..]);
    }
  }

  lemma {:induction false} AtMostAntisymmetric(a: Bytes, b: Bytes)
    requires AtMost(a, b) && AtMost(b, a)
    ensures a == b
  {
    if a != [] && b != [] {
      AtMostAntisymmetric(a[1..], b[1..]);
      assert a == [a[0]] + a[1..] && b == [b[0]] + b[1..];
    }
  }

  lemma {:induction false} AtMostTransitive(a: Bytes, b: Bytes, c: Bytes)
    requires AtMost(a, b) && AtMost(b, c)
    ensures AtMost(a, c)
  {
    if a != [] && a[0] == b[0] == c[0] {
      AtMostTransitive(a[1..], b[1..], c[1..]);
    }
  }

  predicate Sorted(s: seq<Bytes>) {
    forall i, j | 0 <= i < j < |s| :: AtMost(s[i], s[j])
  }

  function Insert(x: Bytes, s: seq<Bytes>): seq<Bytes> {
    if s == [] || AtMost(x, s[0]) then [x] + s else [s[0]] + Insert(x, s[1..])
  }

  function Sort(s: seq<Bytes>): seq<Bytes> {
    if s == [] then [] else Insert(s[0], Sort(s[1..]))
  }

  lemma WithoutFirst(a: seq<Bytes>)
    requires Sorted(a) && a != []
    ensures Sorted(a[1..]) && multiset(a[1..]) == multiset(a) - multiset{a[0]}
  {
    hide AtMost;
    assert a == [a[0]] + a[1..];
  }

  lemma FirstIsBelow(s: seq<Bytes>)
    requires Sorted(s) && s != []
    ensures forall y | y in s[1..] :: AtMost(s[0], y)
  {
    hide AtMost;
  }

  lemma BelowAll(x: Bytes, s: seq<Bytes>)
    requires Sorted(s) && forall y | y in s :: AtMost(x, y)
    ensures Sorted([x] + s)
  {
    hide AtMost;
    var r := [x] + s;
    forall j | 0 < j < |r|
      ensures AtMost(x, r[j])
    {
      assert r[j] == s[j - 1] && s[j - 1] in s;
    }
  }

  lemma InFront(x: Bytes, s: seq<Bytes>)
    requires Sorted(s) && s != [] && AtMost(x, s[0])
    ensures Sorted([x] + s)
  {
    forall y | y in s
      ensures AtMost(x, y)
    {
      var j :| 0 <= j < |s| && s[j] == y;
      if j > 0 {
        AtMostTransitive(x, s[0], y);
      }
    }
    BelowAll(x, s);
  }

  lemma {:induction false} InsertElements(x: Bytes, s: seq<Bytes>)
    ensures multiset(Insert(x, s)) == multiset(s) + multiset{x}
    ensures forall y :: y in Insert(x, s) ==> y == x || y in s
  {
    if s != [] && !AtMost(x, s[0]) {
      InsertElements(x, s[1..]);
      hide AtMost;
      assert s == [s[0]] + s[1..];
    }
  }

  lemma {:induction false} InsertSorts(x: Bytes, s: seq<Bytes>)
    requires Sorted(s)
    ensures Sorted(Insert(x, s))
  {
    if s != [] {
      if AtMost(x, s[0]) {
        InFront(x, s);
      } else {
        AtMostTotal(x, s[0]);
        WithoutFirst(s);
        InsertSorts(x, s[1..]);
        InsertElements(x, s[1..]);
        FirstIsBelow(s);
        hide AtMost, Sorted;
        BelowAll(s[0], Insert(x, s[1..]));
      }
    }
  }

  lemma {:induction false} SortSorts(s: seq<Bytes>)
    ensures Sorted(Sort(s)) && multiset(Sort(s)) == multiset(s) && |Sort(s)| == |s|
  {
    if s != [] {
      SortSorts(s[1..]);
      InsertSorts(s[0], Sort(s[1..]));
      InsertElements(s[0], Sort(s[1..]));
      assert s == [s[0]] + s[1..];
    }
    assert |multiset(Sort(s))| == |multiset(s)|;
  }

  /** Sorting leaves no choice: equal multisets have one sorted list. */
  lemma {:induction false} SortedIsUnique(a: seq<Bytes>, b: seq<Bytes>)
    requires Sorted(a) && Sorted(b) && multiset(a) == multiset(b)
    ensures a == b
  {
    hide Sorted, AtMost;
    SameSize(a, b);
    if a != [] {
      FirstIsLeast(a, b);
      FirstIsLeast(b, a);
      AtMostAntisymmetric(a[0], b[0]);
      WithoutFirst(a);
      WithoutFirst(b);
      SortedIsUnique(a[1..], b[1..]);
      SameEnds(a, b);
    }
  }

  lemma SameSize(a: seq<Bytes>, b: seq<Bytes>)
    requires multiset(a) == multiset(b)
    ensures |a| == |b|
  {
    assert |multiset(a)| == |multiset(b)|;
  }

  lemma SameEnds(a: seq<Bytes>, b: seq<Bytes>)
    requires a != [] && b != [] && a[0] == b[0] && a[1..] == b[1..]
    ensures a == b
  {
    assert a == [a[0]] + a[1..] && b == [b[0]] + b[1..];
  }

  lemma FirstIsLeast(a: seq<Bytes>, b: seq<Bytes>)
    requires Sorted(a) && a != [] && b != [] && multiset(a) == multiset(b)
    ensures AtMost(a[0], b[0])
  {
    assert b[0] in multiset(a);
    var j :| 0 <= j < |a| && a[j] == b[0];
    AtMostTotal(a[0], a[0]);
  }

  /** sort.Strings, by its contract: the sorted rearrangement, in place. */
  method SortStrings(a: array<Bytes>)
    modifies a
    ensures a[..] == Sort(old(a[..]))
  {
    var s := Sort(a[..]);
    SortSorts(a[..]);
    for i := 0 to a.Length
      invariant a[..i] == s[..i]
    {
      a[i] := s[i];
    }
  }

  method ScopesEqual(a: array<Bytes>, b: array<Bytes>) returns (equal: bool)
    ensures equal <==> multiset(a[..]) == multiset(b[..])
  {
    hide Sort, Sorted;
    SortSorts(a[..]);
    SortSorts(b[..]);
    if a.Length != b.Length {
      assert |multiset(a[..])| != |multiset(b[..])|;
      return false;
    }
    ghost var s, t := Sort(a[..]), Sort(b[..]);
    var x := new Bytes[a.Length](i requires 0 <= i < a.Length reads a => a[i]);
    var y := new Bytes[b.Length](i requires 0 <= i < b.Length reads b => b[i]);
    assert x[..] == a[..] && y[..] == b[..];
    SortStrings(x);
    SortStrings(y);
    for i := 0 to x.Length
      invariant x[..i] == y[..i]
      invariant x[..] == s && y[..] == t
    {
      if x[i] != y[i] {
        assert s[i] != t[i];
        SortedDiffer(a[..], b[..], i);
        return false;
      }
    }
    assert s == t;
    return true;
  }

  lemma SortedDiffer(a: seq<Bytes>, b: seq<Bytes>, i: nat)
    requires i < |Sort(a)| && i < |Sort(b)| && Sort(a)[i] != Sort(b)[i]
    ensures multiset(a) != multiset(b)
  {
    SortSorts(a);
    SortSorts(b);
    if multiset(a) == multiset(b) {
      SortedIsUnique(Sort(a), Sort(b));
    }
  }

  // ----- the record -----

  datatype Meta = Meta(issuer: Bytes, resource: Bytes, tokenEndpoint: Bytes, authMethods: seq<Bytes>)

  datatype Config = Config(scopes: seq<Bytes>, clientID: Bytes, clientSecret: Bytes)

  datatype Mode = Public | Confidential

  datatype ClientAuth = ClientAuth(clientID: Bytes, secret: Bytes, mode: Mode, inHeader: bool)

  datatype Record = Record(
    issuer: Bytes, resource: Bytes, tokenEndpoint: Bytes, clientID: Bytes, scopes: seq<Bytes>, mode: Mode)

  /** How a confidential client authenticates: in the form if the server allows it, else in the header. */
  function PickStyle(methods: seq<Bytes>): Option<bool> {
    if "client_secret_post" in methods then Some(false)
    else if "client_secret_basic" in methods then Some(true)
    else None
  }

  function BuildClientAuth(cfg: Config, meta: Meta, registeredID: Bytes): Option<ClientAuth> {
    if cfg.clientID == [] then Some(ClientAuth(registeredID, [], Public, false))
    else if cfg.clientSecret == [] then Some(ClientAuth(cfg.clientID, [], Public, false))
    else
      var style := PickStyle(meta.authMethods);
      if style.None? then None else Some(ClientAuth(cfg.clientID, cfg.clientSecret, Confidential, style.value))
  }

  /**
   What a built client is: the configured id, or the registered one; confidential exactly with an id and a
   secret, and then its secret goes into the form wherever the server takes it there, else into the header.
   A confidential client that the server takes in neither way cannot be built.
   */
  lemma ClientAuthIs(cfg: Config, meta: Meta, registeredID: Bytes)
    ensures var auth := BuildClientAuth(cfg, meta, registeredID);
      var confidential := cfg.clientID != [] && cfg.clientSecret != [];
      var post, basic := "client_secret_post" in meta.authMethods, "client_secret_basic" in meta.authMethods;
      && (auth == None <==> confidential && !post && !basic)
      && (auth != None ==>
            && auth.value.clientID == (if cfg.clientID != [] then cfg.clientID else registeredID)
            && (auth.value.mode == Confidential <==> confidential)
            && auth.value.secret == (if confidential then cfg.clientSecret else [])
            && (auth.value.inHeader <==> confidential && !post))
  {
  }

  /** The record that saveLocked writes, without the tokens. */
  function Saved(cfg: Config, meta: Meta, auth: ClientAuth): Record {
    Record(meta.issuer, meta.resource, meta.tokenEndpoint, auth.clientID, cfg.scopes, auth.mode)
  }

  /** scopesEqual as a function; ScopesEqual computes it. */
  predicate SameScopes(a: seq<Bytes>, b: seq<Bytes>) {
    multiset(a) == multiset(b)
  }

  predicate RecordMatches(rec: Record, cfg: Config, meta: Meta) {
    && rec.issuer == meta.issuer && rec.resource == meta.resource && rec.tokenEndpoint == meta.tokenEndpoint
    && SameScopes(rec.scopes, cfg.scopes)
    && rec.mode == (if cfg.clientSecret != [] then Confidential else Public)
    && (cfg.clientID != [] ==> rec.clientID == cfg.clientID)
  }

  /** Start-up refuses a client secret without a client id (internal/config/config.go:200-202). */
  predicate Admissible(cfg: Config) {
    cfg.clientSecret != [] ==> cfg.clientID != []
  }

  /** The records are for the same server and resource, and for the same scopes in any order. */
  predicate SameGrant(cfg: Config, meta: Meta, cfg': Config, meta': Meta) {
    && meta.issuer == meta'.issuer && meta.resource == meta'.resource && meta.tokenEndpoint == meta'.tokenEndpoint
    && multiset(cfg.scopes) == multiset(cfg'.scopes)
  }

  /** The client that a start under cfg' makes of a record, whether or not the server supports its mode. */
  function Restarted(cfg': Config, rec: Record): (Bytes, Mode) {
    if cfg'.clientID == [] then (rec.clientID, Public)
    else (cfg'.clientID, if cfg'.clientSecret == [] then Public else Confidential)
  }

  lemma RestartedIsBuilt(cfg': Config, meta': Meta, rec: Record)
    ensures var auth := BuildClientAuth(cfg', meta', rec.clientID);
      auth.Some? ==> (auth.value.clientID, auth.value.mode) == Restarted(cfg', rec)
  {
  }

  /**
   A refresh token belongs to the client it was issued to (section 6 of RFC 6749). Whatever changed in the
   configuration, a start takes a saved record exactly when server, resource and scopes are the same and it
   would use the record as the client, and in the mode, that the record was made by.
   */
  lemma RecordMatchesIff(cfg: Config, meta: Meta, registeredID: Bytes, cfg': Config, meta': Meta)
    requires Admissible(cfg) && Admissible(cfg') && BuildClientAuth(cfg, meta, registeredID).Some?
    ensures var auth := BuildClientAuth(cfg, meta, registeredID).value;
      var rec := Saved(cfg, meta, auth);
      RecordMatches(rec, cfg', meta') <==>
        SameGrant(cfg, meta, cfg', meta') && Restarted(cfg', rec) == (auth.clientID, auth.mode)
    ensures var auth := BuildClientAuth(cfg, meta, registeredID).value;
      var rec, auth' := Saved(cfg, meta, auth), BuildClientAuth(cfg', meta', auth.clientID);
      RecordMatches(rec, cfg', meta') && auth'.Some? ==>
        auth'.value.clientID == auth.clientID && auth'.value.mode == auth.mode
  {
    RestartedIsBuilt(cfg', meta', Saved(cfg, meta, BuildClientAuth(cfg, meta, registeredID).value));
  }

  /** A restart under the same configuration takes its own record, whatever the order of the scopes. */
  lemma OwnRecordMatches(cfg: Config, meta: Meta, registeredID: Bytes, cfg': Config, meta': Meta)
    requires Admissible(cfg) && BuildClientAuth(cfg, meta, registeredID).Some?
    requires SameGrant(cfg, meta, cfg', meta')
    requires cfg'.clientID == cfg.clientID && cfg'.clientSecret == cfg.clientSecret
    ensures RecordMatches(Saved(cfg, meta, BuildClientAuth(cfg, meta, registeredID).value), cfg', meta')
  {
    RecordMatchesIff(cfg, meta, registeredID, cfg', meta');
  }
}
