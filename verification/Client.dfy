/**
 internal/metabase/client.go over the two credential providers: what one request does about a 401.
 */
module Client {
  import opened Wrappers
  import opened GoStrings
  import Session
  import OAuth

  /** A secret with the generation at which it was current. */
  datatype Cred = Cred(secret: Bytes, gen: nat)

  datatype Provider =
    | SessionProvider(cfg: Session.Config, session: Session.State)
    | OAuthProvider(token: OAuth.State)

  /** What apply and invalidate meet outside the process. Each provider uses its own part. */
  datatype Env = Env(now: int, script: Session.Script, unexpired: bool, reply: OAuth.Reply, save: OAuth.Save)

  function Gen(p: Provider): nat {
    if p.SessionProvider? then p.session.gen else p.token.gen
  }

  function Apply(p: Provider, env: Env): Provider {
    match p
    case SessionProvider(cfg, st) => p.(session := Session.Ensure(cfg, st, env.now, env.script).st)
    case OAuthProvider(st) => p.(token := OAuth.TokenState(st, env.unexpired, env.reply, env.save))
  }

  function Applied(p: Provider, env: Env): Option<Cred> {
    match p
    case SessionProvider(cfg, st) =>
      var r := Session.Ensure(cfg, st, env.now, env.script).result;
      if r.Ok? then Some(Cred(r.id, r.gen)) else None
    case OAuthProvider(st) =>
      var r := OAuth.TokenResult(st, env.unexpired, env.reply, env.save);
      if r.Ok? then Some(Cred(r.access, r.gen)) else None
  }

  function Invalidate(p: Provider, gen: nat, env: Env): Provider {
    match p
    case SessionProvider(_, st) => p.(session := Session.Forget(st, gen))
    case OAuthProvider(st) => p.(token := OAuth.ForceState(st, gen, env.reply, env.save))
  }

  /** Forgetting a session is local and cannot fail; a forced refresh can. */
  predicate Invalidated(p: Provider, gen: nat, env: Env) {
    p.OAuthProvider? ==> OAuth.ForceSucceeds(p.token, gen, env.reply)
  }

  // ----- the contract of the providers -----

  /** Generation g is over: it can never be handed out again. */
  predicate Over(p: Provider, g: nat) {
    Gen(p) > g || (p.SessionProvider? && Gen(p) == g && p.session.cached == [])
  }

  lemma ApplyContract(p: Provider, env: Env, g: nat)
    ensures Gen(p) <= Gen(Apply(p, env)) <= Gen(p) + 1
    ensures Applied(p, env).Some? ==> Applied(p, env).value.gen == Gen(Apply(p, env))
    ensures Over(p, g) ==> Over(Apply(p, env), g)
    ensures Over(p, g) && Applied(p, env).Some? ==> Applied(p, env).value.gen > g
  {
    if p.SessionProvider? {
      Session.EnsureOutcome(p.cfg, p.session, env.now, env.script);
    }
  }

  lemma InvalidateContract(p: Provider, gen: nat, env: Env, g: nat)
    ensures Gen(p) <= Gen(Invalidate(p, gen, env)) <= Gen(p) + 1
    ensures Over(p, g) ==> Over(Invalidate(p, gen, env), g)
    ensures Invalidated(p, gen, env) && gen <= Gen(p) ==> Over(Invalidate(p, gen, env), gen)
    ensures gen != Gen(p) ==> Invalidate(p, gen, env) == p
  {
  }

  /** When apply gives a credential, and which: told by what the server and the clock do. */
  lemma ApplyMeans(p: Provider, env: Env)
    ensures p.SessionProvider? && p.session.cached != [] ==>
      Applied(p, env) == Some(Cred(p.session.cached, p.session.gen)) && Apply(p, env) == p
    ensures p.SessionProvider? && p.session.cached == [] ==>
      (Applied(p, env).Some? <==>
         env.now >= p.session.negCacheUntil && exists k: nat :: Session.LogsIn(p.cfg, env.script, k))
    ensures p.SessionProvider? && p.session.cached == [] && env.now >= p.session.negCacheUntil ==>
      forall k: nat | Session.LogsIn(p.cfg, env.script, k) ::
        Applied(p, env) == Some(Cred(env.script(k).post.reply.id, p.session.gen + 1))
    ensures p.OAuthProvider? ==>
      var live := p.token.access != [] && env.unexpired;
      Applied(p, env) == if live then Some(Cred(p.token.access, p.token.gen))
                         else if p.token.refresh != [] && env.reply.Refreshed?
                         then Some(Cred(env.reply.access, p.token.gen + 1)) else None
  {
    if p.SessionProvider? {
      Session.EnsureMeans(p.cfg, p.session, env.now, env.script);
      hide Session.Ensure;
    }
  }

  /** Forgetting a session always succeeds; a refresh succeeds when the generation is old or it is granted. */
  lemma InvalidateMeans(p: Provider, gen: nat, env: Env)
    ensures Invalidated(p, gen, env) <==>
      p.SessionProvider? || gen != p.token.gen || (p.token.refresh != [] && env.reply.Refreshed?)
    ensures p.OAuthProvider? && gen == p.token.gen && Invalidated(p, gen, env) ==>
      Invalidate(p, gen, env).token.access == env.reply.access
  {
  }

  // ----- one request -----

  datatype Failure =
    | NotBuilt | NoCredential | NoReply | NotRetryable | RefreshFailed | Repeated401
    | BadStatus(status: int)
    | NotDecoded

  /** Where a request stands. `rejected` is the credential that got the first 401. */
  datatype Pc =
    | Ready(attempt: nat, rejected: Option<Cred>)
    | Sent(attempt: nat, cred: Cred, rejected: Option<Cred>)
    | Unauthorized(cred: Cred)
    | Succeeded
    | GaveUp(failure: Failure)

  datatype Event =
    | BuildFailed
    | CredentialApplied(cred: Cred)
    | ApplyFailed
    | TransportFailed
    | Replied(status: int, retryable: bool, decodes: bool)
    | CredentialInvalidated
    | InvalidateFailed

  predicate Expects(pc: Pc, ev: Event) {
    match pc
    case Ready(_, _) => ev.BuildFailed? || ev.CredentialApplied? || ev.ApplyFailed?
    case Sent(_, _, _) => ev.TransportFailed? || ev.Replied?
    case Unauthorized(_) => ev.CredentialInvalidated? || ev.InvalidateFailed?
    case _ => false
  }

  function AfterReply(attempt: nat, cred: Cred, ev: Event): Pc
    requires ev.Replied?
  {
    if ev.status == 401 then
      if attempt == 0 && ev.retryable then Unauthorized(cred)
      else if !ev.retryable then GaveUp(NotRetryable)
      else GaveUp(Repeated401)
    else if ev.status < 200 || ev.status >= 300 then GaveUp(BadStatus(ev.status))
    else if ev.decodes then Succeeded
    else GaveUp(NotDecoded)
  }

  function Advance(pc: Pc, ev: Event): Pc
    requires Expects(pc, ev)
  {
    match pc
    case Ready(attempt, rejected) =>
      (match ev
       case BuildFailed => GaveUp(NotBuilt)
       case CredentialApplied(cred) => Sent(attempt, cred, rejected)
       case _ => GaveUp(NoCredential))
    case Sent(attempt, cred, _) =>
      if ev.TransportFailed? then GaveUp(NoReply) else AfterReply(attempt, cred, ev)
    case Unauthorized(cred) =>
      if ev.CredentialInvalidated? then Ready(1, Some(cred)) else GaveUp(RefreshFailed)
  }
}
