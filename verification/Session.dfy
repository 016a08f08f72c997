/**
 internal/metabase/session.go: the session cookie and its generation. The mutex is held across the
 login, so that a call is one atomic step; the server's replies and the clock are arguments.
 */
module Session {
  import opened GoStrings
  import opened Sets

  /** doLogin never returns an empty id. */
  type SessionId = id: Bytes | id != [] witness "s"

  datatype Reply =
    | LoggedIn(id: SessionId)
    | Rejected   // status 400 or 401
    | Transient  // any other failure

  /** What the i-th pass of the login loop meets: the wait, and the POST with its times and its reply. */
  datatype Attempt = Attempt(cancelled: bool, post: Post)
  datatype Post = Post(start: int, reply: Reply, done: int)
  type Script = nat -> Attempt

  datatype Config = Config(negCacheTTL: int, backoffs: seq<int>)

  datatype State = State(cached: Bytes, gen: nat, negCacheUntil: int)

  datatype Result = Ok(id: Bytes, gen: nat) | AuthFailed | Cancelled | Failed

  datatype Outcome = Outcome(st: State, result: Result, posts: seq<Post>)

  function After(p: Post, o: Outcome): Outcome {
    o.(posts := [p] + o.posts)
  }

  /** The login loop from its i-th pass on. */
  function Login(cfg: Config, st: State, script: Script, i: nat): Outcome
    requires i <= |cfg.backoffs|
    decreases |cfg.backoffs| - i
  {
    if i == |cfg.backoffs| then
      Outcome(st, Failed, [])
    else if i > 0 && cfg.backoffs[i] > 0 && script(i).cancelled then
      Outcome(st, Cancelled, [])
    else
      var p := script(i).post;
      match p.reply
      case LoggedIn(id) => Outcome(st.(cached := id, gen := st.gen + 1), Ok(id, st.gen + 1), [p])
      case Rejected => Outcome(st.(negCacheUntil := p.done + cfg.negCacheTTL), AuthFailed, [p])
      case Transient => After(p, Login(cfg, st, script, i + 1))
  }

  function Ensure(cfg: Config, st: State, now: int, script: Script): Outcome {
    if st.cached != [] then Outcome(st, Ok(st.cached, st.gen), [])
    else if now < st.negCacheUntil then Outcome(st, AuthFailed, [])
    else Login(cfg, st, script, 0)
  }

  function Forget(st: State, gen: nat): State {
    if st.gen == gen && st.cached != [] then st.(cached := []) else st
  }

  class SessionManager {
    const cfg: Config
    var cached: Bytes
    var gen: nat
    var negCacheUntil: int

    function View(): State
      reads this
    {
      State(cached, gen, negCacheUntil)
    }

    constructor (cfg: Config, epoch: int)
      ensures this.cfg == cfg && View() == State([], 0, epoch)
    {
      this.cfg := cfg;
      cached, gen, negCacheUntil := [], 0, epoch;
    }

    /** The second result lists the login requests that the call has made. */
    method EnsureSession(now: int, script: Script) returns (result: Result, posts: seq<Post>)
      modifies this
      ensures Outcome(View(), result, posts) == Ensure(cfg, old(View()), now, script)
    {
      posts := [];
      if cached != [] {
        return Ok(cached, gen), [];
      }
      if now < negCacheUntil {
        return AuthFailed, [];
      }
      for i := 0 to |cfg.backoffs|
        invariant View() == old(View())
        invariant Ensure(cfg, View(), now, script) == Prefixed(posts, Login(cfg, View(), script, i))
      {
        if i > 0 && cfg.backoffs[i] > 0 && script(i).cancelled {
          return Cancelled, posts;
        }
        var p := script(i).post;
        if p.reply.Transient? {
          PrefixedAfter(posts, p, Login(cfg, View(), script, i + 1));
        }
        posts := posts + [p];
        match p.reply
        case LoggedIn(id) =>
          cached := id;
          gen := gen + 1;
          return Ok(id, gen), posts;
        case Rejected =>
          negCacheUntil := p.done + cfg.negCacheTTL;
          return AuthFailed, posts;
        case Transient =>
      }
      return Failed, posts;
    }

    method Invalidate(gen: nat)
      modifies this
      ensures View() == Forget(old(View()), gen)
      ensures this.gen == old(this.gen) && negCacheUntil == old(negCacheUntil)
      ensures cached == if gen == old(this.gen) then [] else old(cached)
    {
      if this.gen == gen && cached != [] {
        cached := [];
      }
    }
  }

  function Prefixed(posts: seq<Post>, o: Outcome): Outcome {
    o.(posts := posts + o.posts)
  }

  lemma PrefixedAfter(posts: seq<Post>, p: Post, o: Outcome)
    ensures Prefixed(posts, After(p, o)) == Prefixed(posts + [p], o)
  {
    assert posts + ([p] + o.posts) == (posts + [p]) + o.posts;
  }

  // ----- one call -----

  lemma {:induction false} LoginPosts(cfg: Config, st: State, script: Script, i: nat)
    requires i <= |cfg.backoffs|
    ensures var o := Login(cfg, st, script, i);
      && |o.posts| <= |cfg.backoffs| - i
      && (forall k | 0 <= k < |o.posts| :: o.posts[k] == script(i + k).post)
      && (forall k | 0 <= k < |o.posts| - 1 :: o.posts[k].reply.Transient?)
      && (o.result.Ok? <==> o.posts != [] && o.posts[|o.posts| - 1].reply.LoggedIn?)
      && (o.result.AuthFailed? <==> o.posts != [] && o.posts[|o.posts| - 1].reply.Rejected?)
    decreases |cfg.backoffs| - i
  {
    if i < |cfg.backoffs| && script(i).post.reply.Transient? {
      LoginPosts(cfg, st, script, i + 1);
    }
  }

  lemma {:induction false} LoginState(cfg: Config, st: State, script: Script, i: nat)
    requires i <= |cfg.backoffs|
    ensures var o := Login(cfg, st, script, i);
      match o.result
      case Ok(id, gen) =>
        && o.posts != [] && o.posts[|o.posts| - 1].reply.LoggedIn? && o.posts[|o.posts| - 1].reply.id == id
        && gen == st.gen + 1 && o.st == st.(cached := id, gen := gen)
      case AuthFailed =>
        && o.posts != []
        && o.st == st.(negCacheUntil := o.posts[|o.posts| - 1].done + cfg.negCacheTTL)
      case _ => o.st == st
    decreases |cfg.backoffs| - i
  {
    if i < |cfg.backoffs| && script(i).post.reply.Transient? {
      LoginState(cfg, st, script, i + 1);
    }
  }

  // ----- what a call comes to, by the replies alone -----

  /** Pass k sends its request: every reply before was transient, and no wait was cancelled up to it. */
  ghost predicate Sends(cfg: Config, script: Script, k: nat) {
    && k < |cfg.backoffs|
    && (forall i: nat | i < k :: script(i).post.reply.Transient?)
    && (forall i: nat | 1 <= i <= k :: cfg.backoffs[i] > 0 ==> !script(i).cancelled)
  }

  ghost predicate LogsIn(cfg: Config, script: Script, k: nat) {
    Sends(cfg, script, k) && script(k).post.reply.LoggedIn?
  }

  ghost predicate IsRejected(cfg: Config, script: Script, k: nat) {
    Sends(cfg, script, k) && script(k).post.reply.Rejected?
  }

  /** The wait before pass k is cancelled, with every earlier request sent in vain. */
  ghost predicate IsCancelled(cfg: Config, script: Script, k: nat) {
    && 1 <= k < |cfg.backoffs| && cfg.backoffs[k] > 0 && script(k).cancelled
    && Sends(cfg, script, k - 1) && script(k - 1).post.reply.Transient?
  }

  /** Every pass sends its request, and every reply is transient. */
  ghost predicate IsExhausted(cfg: Config, script: Script) {
    forall k: nat | k < |cfg.backoffs| :: Sends(cfg, script, k) && script(k).post.reply.Transient?
  }

  /** The requests of the first n passes. */
  function Requests(script: Script, n: nat): seq<Post> {
    seq(n, i requires 0 <= i < n => script(i).post)
  }

  lemma {:induction false} LoginUnrolls(cfg: Config, st: State, script: Script, k: nat)
    requires k <= |cfg.backoffs|
    requires k > 0 ==> Sends(cfg, script, k - 1) && script(k - 1).post.reply.Transient?
    ensures Login(cfg, st, script, 0) == Prefixed(Requests(script, k), Login(cfg, st, script, k))
  {
    if k == 0 {
      assert Requests(script, 0) == [];
    } else {
      var p := script(k - 1).post;
      LoginUnrolls(cfg, st, script, k - 1);
      assert Login(cfg, st, script, k - 1) == After(p, Login(cfg, st, script, k));
      hide Login, Sends, Prefixed;
      assert Requests(script, k - 1) + [p] == Requests(script, k);
      PrefixedAfter(Requests(script, k - 1), p, Login(cfg, st, script, k));
    }
  }

  /** The pass at which the loop ends: the first that is cancelled or answered for good, or none. */
  lemma {:induction false} LoopEnds(cfg: Config, script: Script, from: nat) returns (k: nat)
    requires from <= |cfg.backoffs|
    requires from > 0 ==> Sends(cfg, script, from - 1) && script(from - 1).post.reply.Transient?
    ensures k <= |cfg.backoffs|
    ensures k > 0 ==> Sends(cfg, script, k - 1) && script(k - 1).post.reply.Transient?
    ensures k < |cfg.backoffs| ==>
      LogsIn(cfg, script, k) || IsRejected(cfg, script, k) || IsCancelled(cfg, script, k)
    decreases |cfg.backoffs| - from
  {
    k := from;
    if k < |cfg.backoffs| && !(k > 0 && cfg.backoffs[k] > 0 && script(k).cancelled) {
      assert Sends(cfg, script, k);
      if script(k).post.reply.Transient? {
        k := LoopEnds(cfg, script, k + 1);
      }
    }
  }

  /** With pass k the loop is over: no later pass sends a request. */
  lemma OnlyOneEnd(cfg: Config, script: Script, k: nat, j: nat)
    requires LogsIn(cfg, script, k) || IsRejected(cfg, script, k) || IsCancelled(cfg, script, k)
    requires LogsIn(cfg, script, j) || IsRejected(cfg, script, j) || IsCancelled(cfg, script, j)
    ensures j == k
  {
  }

  /** What the loop comes to at the pass at which it ends. */
  lemma LoginAt(cfg: Config, st: State, script: Script, k: nat)
    requires k <= |cfg.backoffs|
    requires k > 0 ==> Sends(cfg, script, k - 1) && script(k - 1).post.reply.Transient?
    ensures var o := Login(cfg, st, script, 0);
      && (k == |cfg.backoffs| ==> o == Outcome(st, Failed, Requests(script, k)))
      && (IsCancelled(cfg, script, k) ==> o == Outcome(st, Cancelled, Requests(script, k)))
      && (IsRejected(cfg, script, k) ==>
            var until := script(k).post.done + cfg.negCacheTTL;
            o == Outcome(st.(negCacheUntil := until), AuthFailed, Requests(script, k + 1)))
      && (LogsIn(cfg, script, k) ==>
            var id := script(k).post.reply.id;
            o == Outcome(State(id, st.gen + 1, st.negCacheUntil), Ok(id, st.gen + 1), Requests(script, k + 1)))
  {
    LoginUnrolls(cfg, st, script, k);
    assert Requests(script, k + 1) == Requests(script, k) + [script(k).post];
    assert Requests(script, k) + [] == Requests(script, k);
  }

  /**
   ensureSessionLocked, by what the server and the clock do: a cached session is returned, the negative
   cache is respected, and else the call succeeds exactly if some pass sends a request that is answered
   with a session, and fails in each of the other ways exactly when that way occurs.
   */
  lemma EnsureMeans(cfg: Config, st: State, now: int, script: Script)
    ensures var o := Ensure(cfg, st, now, script);
      && (st.cached != [] ==> o == Outcome(st, Ok(st.cached, st.gen), []))
      && (st.cached == [] && now < st.negCacheUntil ==> o == Outcome(st, AuthFailed, []))
      && (st.cached == [] && now >= st.negCacheUntil ==>
            && (o.result.Ok? <==> exists k: nat :: LogsIn(cfg, script, k))
            && (o.result.AuthFailed? <==> exists k: nat :: IsRejected(cfg, script, k))
            && (o.result.Cancelled? <==> exists k: nat :: IsCancelled(cfg, script, k))
            && (o.result.Failed? <==> IsExhausted(cfg, script)))
    ensures st.cached == [] && now >= st.negCacheUntil ==>
      forall k: nat | LogsIn(cfg, script, k) ::
        var id := script(k).post.reply.id;
        Ensure(cfg, st, now, script)
          == Outcome(State(id, st.gen + 1, st.negCacheUntil), Ok(id, st.gen + 1), Requests(script, k + 1))
    ensures st.cached == [] && now >= st.negCacheUntil ==>
      forall k: nat | IsRejected(cfg, script, k) ::
        var until := script(k).post.done + cfg.negCacheTTL;
        Ensure(cfg, st, now, script)
          == Outcome(st.(negCacheUntil := until), AuthFailed, Requests(script, k + 1))
    ensures st.cached == [] && now >= st.negCacheUntil ==>
      forall k: nat | IsCancelled(cfg, script, k) ::
        Ensure(cfg, st, now, script) == Outcome(st, Cancelled, Requests(script, k))
    ensures st.cached == [] && now >= st.negCacheUntil && IsExhausted(cfg, script) ==>
      Ensure(cfg, st, now, script) == Outcome(st, Failed, Requests(script, |cfg.backoffs|))
  {
    if st.cached == [] && now >= st.negCacheUntil {
      var k := LoopEnds(cfg, script, 0);
      LoginAt(cfg, st, script, k);
      NoEndAtAll(cfg, script, k);
      hide Login, Sends, Requests;
      forall j: nat | LogsIn(cfg, script, j) || IsRejected(cfg, script, j) || IsCancelled(cfg, script, j)
        ensures j == k
      {
        if k < |cfg.backoffs| {
          OnlyOneEnd(cfg, script, k, j);
        }
      }
    }
  }

  /** Either the loop ends at a pass, or it is exhausted, but not both. */
  lemma NoEndAtAll(cfg: Config, script: Script, k: nat)
    requires k <= |cfg.backoffs|
    requires k > 0 ==> Sends(cfg, script, k - 1) && script(k - 1).post.reply.Transient?
    requires k < |cfg.backoffs| ==>
      LogsIn(cfg, script, k) || IsRejected(cfg, script, k) || IsCancelled(cfg, script, k)
    ensures IsExhausted(cfg, script) <==> k == |cfg.backoffs|
    ensures k == |cfg.backoffs| ==> forall j: nat ::
              !LogsIn(cfg, script, j) && !IsRejected(cfg, script, j) && !IsCancelled(cfg, script, j)
  {
    if k < |cfg.backoffs| {
      assert !(Sends(cfg, script, k) && script(k).post.reply.Transient?);
    }
  }

  // ----- whole runs -----

  datatype Call = EnsureCall(now: int, script: Script) | InvalidateCall(gen: nat)

  /**
   The manager with its history: the session issued at each generation (none at 0), the generations
   ever passed to invalidate, and the login requests.
   */
  datatype World = World(st: State, clock: int, issued: seq<Bytes>, invalidated: set<nat>, posts: seq<Post>)

  /** Times in a call follow each other and follow those of earlier calls. */
  ghost predicate Timely(w: World, call: Call) {
    call.EnsureCall? ==>
      && w.clock <= call.now <= call.script(0).post.start
      && forall i: nat :: call.script(i).post.start <= call.script(i).post.done <= call.script(i + 1).post.start
  }

  /** The session that the server hands out in the last of these requests, if any. */
  function NewIds(posts: seq<Post>): seq<Bytes> {
    if posts != [] && posts[|posts| - 1].reply.LoggedIn? then [posts[|posts| - 1].reply.id] else []
  }

  function Step(cfg: Config, w: World, call: Call): World {
    match call
    case EnsureCall(now, script) =>
      var o := Ensure(cfg, w.st, now, script);
      World(o.st,
            if o.posts == [] then now else o.posts[|o.posts| - 1].done,
            w.issued + NewIds(o.posts),
            w.invalidated,
            w.posts + o.posts)
    case InvalidateCall(gen) =>
      w.(st := Forget(w.st, gen), invalidated := w.invalidated + {gen})
  }

  ghost predicate Run(cfg: Config, w: World, calls: seq<Call>, w': World)
    decreases |calls|
  {
    if calls == [] then w' == w
    else Timely(w, calls[0]) && Run(cfg, Step(cfg, w, calls[0]), calls[1..], w')
  }

  function Start(epoch: int): World {
    World(State([], 0, epoch), epoch, [[]], {}, [])
  }

  function Logins(posts: seq<Post>): nat {
    if posts == [] then 0
    else Logins(posts[..|posts| - 1]) + if posts[|posts| - 1].reply.LoggedIn? then 1 else 0
  }

  /** The cache is empty or holds what was issued at the current generation. */
  predicate Snapshots(w: World) {
    && |w.issued| == w.st.gen + 1
    && (w.st.cached == [] || (w.st.gen > 0 && w.st.cached == w.issued[w.st.gen]))
  }

  /** Every session but the last was given up because its own generation was passed to invalidate. */
  predicate Accounted(w: World) {
    && Logins(w.posts) == w.st.gen
    && (forall g: nat | 1 <= g < w.st.gen :: g in w.invalidated)
    && (w.st.cached == [] && w.st.gen > 0 ==> w.st.gen in w.invalidated)
  }

  /** No request starts within the TTL after an earlier rejection. */
  predicate Spaced(cfg: Config, posts: seq<Post>) {
    forall i, j | 0 <= i < j < |posts| :: posts[i].reply.Rejected? ==> posts[j].start >= posts[i].done + cfg.negCacheTTL
  }

  predicate NegCached(cfg: Config, w: World) {
    && Spaced(cfg, w.posts)
    && (forall i | 0 <= i < |w.posts| :: w.posts[i].done <= w.clock)
    && (forall i | 0 <= i < |w.posts| :: w.posts[i].reply.Rejected?
          ==> w.posts[i].done + cfg.negCacheTTL <= w.st.negCacheUntil)
  }

  predicate Inv(cfg: Config, w: World) {
    Snapshots(w) && Accounted(w) && NegCached(cfg, w)
  }

  lemma {:induction false} LoginsAppend(a: seq<Post>, b: seq<Post>)
    requires forall k | 0 <= k < |b| - 1 :: !b[k].reply.LoggedIn?
    ensures Logins(a + b) == Logins(a) + if b != [] && b[|b| - 1].reply.LoggedIn? then 1 else 0
  {
    if b == [] {
      assert a + b == a;
    } else {
      LoginsAppend(a, b[..|b| - 1]);
      assert (a + b)[..|a + b| - 1] == a + b[..|b| - 1];
    }
  }

  lemma EnsureOutcome(cfg: Config, st: State, now: int, script: Script)
    ensures var o := Ensure(cfg, st, now, script);
      && |o.posts| <= |cfg.backoffs|
      && (o.posts != [] ==> st.cached == [] && now >= st.negCacheUntil)
      && (forall k | 0 <= k < |o.posts| :: o.posts[k] == script(k).post)
      && (forall k | 0 <= k < |o.posts| - 1 :: o.posts[k].reply.Transient?)
      && (o.result.Ok? ==> o.st.cached == o.result.id && o.st.gen == o.result.gen && o.result.id != [])
      && (o.st.gen == st.gen || (o.st.gen == st.gen + 1 && st.cached == [] && o.result.Ok?))
      && (o.st.gen > st.gen <==> o.posts != [] && o.posts[|o.posts| - 1].reply.LoggedIn?)
      && (o.st.gen > st.gen ==> o.st.cached == o.posts[|o.posts| - 1].reply.id)
      && (o.st.gen == st.gen ==> o.st.cached == st.cached)
      && (o.st.negCacheUntil == if o.posts != [] && o.posts[|o.posts| - 1].reply.Rejected?
                               then o.posts[|o.posts| - 1].done + cfg.negCacheTTL else st.negCacheUntil)
  {
    EnsurePosts(cfg, st, now, script);
    EnsureState(cfg, st, now, script);
    hide Ensure;
  }

  lemma EnsurePosts(cfg: Config, st: State, now: int, script: Script)
    ensures var o := Ensure(cfg, st, now, script);
      && |o.posts| <= |cfg.backoffs|
      && (o.posts != [] ==> st.cached == [] && now >= st.negCacheUntil)
      && (forall k | 0 <= k < |o.posts| :: o.posts[k] == script(k).post)
      && (forall k | 0 <= k < |o.posts| - 1 :: o.posts[k].reply.Transient?)
  {
    LoginPosts(cfg, st, script, 0);
    hide Login;
  }

  lemma EnsureState(cfg: Config, st: State, now: int, script: Script)
    ensures var o := Ensure(cfg, st, now, script);
      && (o.result.Ok? ==> o.st.cached == o.result.id && o.st.gen == o.result.gen && o.result.id != [])
      && (o.st.gen == st.gen || (o.st.gen == st.gen + 1 && st.cached == [] && o.result.Ok?))
      && (o.st.gen > st.gen <==> o.posts != [] && o.posts[|o.posts| - 1].reply.LoggedIn?)
      && (o.st.gen > st.gen ==> o.st.cached == o.posts[|o.posts| - 1].reply.id)
      && (o.st.gen == st.gen ==> o.st.cached == st.cached)
      && (o.st.negCacheUntil == if o.posts != [] && o.posts[|o.posts| - 1].reply.Rejected?
                               then o.posts[|o.posts| - 1].done + cfg.negCacheTTL else st.negCacheUntil)
  {
    LastPost(cfg, st, script, 0);
    LoginState(cfg, st, script, 0);
    hide Login;
  }

  lemma LastPost(cfg: Config, st: State, script: Script, i: nat)
    requires i <= |cfg.backoffs|
    ensures var o := Login(cfg, st, script, i);
      && (o.result.Ok? <==> o.posts != [] && o.posts[|o.posts| - 1].reply.LoggedIn?)
      && (o.result.AuthFailed? <==> o.posts != [] && o.posts[|o.posts| - 1].reply.Rejected?)
  {
    LoginPosts(cfg, st, script, i);
    hide Login;
  }

  lemma EnsureKeepsAccounts(cfg: Config, w: World, call: Call)
    requires Snapshots(w) && Accounted(w) && call.EnsureCall?
    ensures Snapshots(Step(cfg, w, call)) && Accounted(Step(cfg, w, call))
  {
    hide Ensure, Logins;
    var posts := Ensure(cfg, w.st, call.now, call.script).posts;
    EnsureOutcome(cfg, w.st, call.now, call.script);
    LoginsAppend(w.posts, posts);
  }

  lemma ForgetKeepsAccounts(w: World, gen: nat)
    requires Snapshots(w) && Accounted(w)
    ensures var w' := w.(st := Forget(w.st, gen), invalidated := w.invalidated + {gen});
      Snapshots(w') && Accounted(w')
  {
    hide Logins;
  }

  lemma StepKeepsAccounts(cfg: Config, w: World, call: Call)
    requires Snapshots(w) && Accounted(w)
    ensures Snapshots(Step(cfg, w, call)) && Accounted(Step(cfg, w, call))
  {
    hide Ensure, Logins, Forget;
    if call.EnsureCall? {
      EnsureKeepsAccounts(cfg, w, call);
    } else {
      ForgetKeepsAccounts(w, call.gen);
    }
  }

  lemma {:induction false} ScriptMonotone(script: Script, i: nat, j: nat)
    requires forall i: nat :: script(i).post.start <= script(i).post.done <= script(i + 1).post.start
    requires i <= j
    ensures script(i).post.start <= script(j).post.start && script(i).post.done <= script(j).post.done
    decreases j - i
  {
    if i < j {
      ScriptMonotone(script, i + 1, j);
    }
  }

  lemma StepKeepsNegCache(cfg: Config, w: World, call: Call)
    requires NegCached(cfg, w) && Timely(w, call)
    ensures NegCached(cfg, Step(cfg, w, call))
  {
    if call.EnsureCall? {
      EnsureOutcome(cfg, w.st, call.now, call.script);
      PostsAreLater(cfg, w, call);
    }
    hide Ensure, Timely;
  }

  /** The requests of a call are ordered in time, and start when the negative cache has run out. */
  lemma PostsAreLater(cfg: Config, w: World, call: Call)
    requires call.EnsureCall? && Timely(w, call)
    ensures var o := Ensure(cfg, w.st, call.now, call.script);
      forall k | 0 <= k < |o.posts| ::
        && w.clock <= call.now <= o.posts[k].start && w.st.negCacheUntil <= o.posts[k].start
        && o.posts[k].start <= o.posts[k].done <= o.posts[|o.posts| - 1].done
  {
    var o := Ensure(cfg, w.st, call.now, call.script);
    EnsureOutcome(cfg, w.st, call.now, call.script);
    hide Ensure;
    forall k | 0 <= k < |o.posts|
      ensures call.script(0).post.start <= o.posts[k].start
      ensures o.posts[k].done <= o.posts[|o.posts| - 1].done
    {
      ScriptMonotone(call.script, 0, k);
      ScriptMonotone(call.script, k, |o.posts| - 1);
    }
  }

  lemma {:induction false} RunKeepsInv(cfg: Config, w: World, calls: seq<Call>, w': World)
    requires Inv(cfg, w) && Run(cfg, w, calls, w')
    ensures Inv(cfg, w') && w'.st.gen >= w.st.gen
    decreases |calls|
  {
    if calls != [] {
      StepKeepsAccounts(cfg, w, calls[0]);
      StepKeepsNegCache(cfg, w, calls[0]);
      if calls[0].EnsureCall? {
        EnsureOutcome(cfg, w.st, calls[0].now, calls[0].script);
      }
      hide Ensure, Snapshots, Accounted, NegCached, Timely;
      RunKeepsInv(cfg, Step(cfg, w, calls[0]), calls[1..], w');
    }
  }

  /**
   However calls are mixed, there is at most one successful login more than there are generations
   ever passed to invalidate: callers that all hold the same rejected generation cause one re-login.
   */
  lemma LoginsAreBounded(cfg: Config, epoch: int, calls: seq<Call>, w: World)
    requires Run(cfg, Start(epoch), calls, w)
    ensures Logins(w.posts) == w.st.gen <= 1 + |w.invalidated|
  {
    RunKeepsInv(cfg, Start(epoch), calls, w);
    HoldsRange(1, w.st.gen, w.invalidated);
  }

  /** Callers that all hold the generation g cause one new login between them, and then share its session. */
  lemma {:induction false} OneReloginPerGeneration(cfg: Config, w: World, calls: seq<Call>, w': World, g: nat)
    requires Snapshots(w) && Accounted(w) && Run(cfg, w, calls, w')
    requires forall c | c in calls && c.InvalidateCall? :: c.gen == g
    requires w.st.gen == g || (w.st.gen == g + 1 && w.st.cached != [])
    ensures Logins(w'.posts) <= g + 1
    ensures w'.st.gen == g || (w'.st.gen == g + 1 && w'.st.cached != [])
    decreases |calls|
  {
    if calls != [] {
      var c := calls[0];
      StepKeepsAccounts(cfg, w, c);
      if c.EnsureCall? {
        EnsureOutcome(cfg, w.st, c.now, c.script);
      }
      assert c in calls;
      hide Ensure, Accounted, Timely;
      OneReloginPerGeneration(cfg, Step(cfg, w, c), calls[1..], w', g);
    }
  }

  /** After a rejected login no request starts before the negative cache has run out, in any run. */
  lemma RejectionsAreRespected(cfg: Config, epoch: int, calls: seq<Call>, w: World)
    requires Run(cfg, Start(epoch), calls, w)
    ensures Spaced(cfg, w.posts)
  {
    RunKeepsInv(cfg, Start(epoch), calls, w);
  }

  /** The session that a call returns is the one issued at the generation it returns. */
  lemma SnapshotIsConsistent(cfg: Config, epoch: int, calls: seq<Call>, w: World, now: int, script: Script)
    requires Run(cfg, Start(epoch), calls, w)
    ensures var w', r := Step(cfg, w, EnsureCall(now, script)), Ensure(cfg, w.st, now, script).result;
      r.Ok? ==> r.gen == w'.st.gen < |w'.issued| && r.id == w'.issued[r.gen] && r.id != []
  {
    RunKeepsInv(cfg, Start(epoch), calls, w);
    StepKeepsAccounts(cfg, w, EnsureCall(now, script));
    EnsureOutcome(cfg, w.st, now, script);
  }
}
