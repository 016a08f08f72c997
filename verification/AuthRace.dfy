/**
 Any number of goroutines run doJSON over one provider. Each call of apply or invalidate is one step,
 since the provider's mutex is held throughout; the steps of different goroutines mix freely.
 */
module AuthRace {
  import opened Wrappers
  import opened GoStrings
  import opened Client
  import OAuth
  import Session

  type Thread = nat

  /** The provider, the credential that the server issued for each generation so far, and the requests under way. */
  datatype System = System(p: Provider, history: seq<Bytes>, threads: map<Thread, Pc>)

  datatype Step =
    | Begin(t: Thread)
    | Apply(t: Thread, env: Env)
    | Invalidate(t: Thread, env: Env)
    | Other(t: Thread, ev: Event)

  ghost predicate Enabled(s: System, step: Step) {
    match step
    case Begin(t) => t !in s.threads
    case Apply(t, env) => t in s.threads && s.threads[t].Ready?
    case Invalidate(t, env) => t in s.threads && s.threads[t].Unauthorized?
    case Other(t, ev) =>
      t in s.threads && Expects(s.threads[t], ev) && (ev.BuildFailed? || ev.TransportFailed? || ev.Replied?)
  }

  /** The credential that the provider holds; empty for a session manager that is logged out. */
  function Secret(p: Provider): Bytes {
    if p.SessionProvider? then p.session.cached else p.token.access
  }

  /** The access token with which the server grants a refresh, if one is asked for and granted. */
  function Granted(st: OAuth.State, asked: bool, reply: OAuth.Reply): seq<Bytes> {
    if asked && st.refresh != [] && reply.Refreshed? then [reply.access] else []
  }

  /** The secrets that the server hands out in a call of apply: told by its replies, not by the provider. */
  function ApplySecrets(p: Provider, env: Env): seq<Bytes> {
    match p
    case SessionProvider(cfg, st) => Session.NewIds(Session.Ensure(cfg, st, env.now, env.script).posts)
    case OAuthProvider(st) => Granted(st, st.access == [] || !env.unexpired, env.reply)
  }

  /** And in a call of invalidate; a session is only forgotten. */
  function InvalidateSecrets(p: Provider, gen: nat, env: Env): seq<Bytes> {
    match p
    case SessionProvider(_, _) => []
    case OAuthProvider(st) => Granted(st, gen == st.gen, env.reply)
  }

  ghost function Next(s: System, step: Step): System
    requires Enabled(s, step)
  {
    match step
    case Begin(t) => s.(threads := s.threads[t := Ready(0, None)])
    case Apply(t, env) =>
      var p := Client.Apply(s.p, env);
      var cred := Applied(s.p, env);
      var ev := if cred.Some? then CredentialApplied(cred.value) else ApplyFailed;
      System(p, s.history + ApplySecrets(s.p, env), s.threads[t := Advance(s.threads[t], ev)])
    case Invalidate(t, env) =>
      var gen := s.threads[t].cred.gen;
      var p := Client.Invalidate(s.p, gen, env);
      var ev := if Invalidated(s.p, gen, env) then CredentialInvalidated else InvalidateFailed;
      System(p, s.history + InvalidateSecrets(s.p, gen, env), s.threads[t := Advance(s.threads[t], ev)])
    case Other(t, ev) => s.(threads := s.threads[t := Advance(s.threads[t], ev)])
  }

  ghost predicate Path(s: System, steps: seq<Step>, s': System)
    decreases |steps|
  {
    if steps == [] then s' == s
    else Enabled(s, steps[0]) && Path(Next(s, steps[0]), steps[1..], s')
  }

  /** A provider that has just been set up: no session yet, or the token it was seeded with. */
  ghost predicate Initial(s: System) {
    && Gen(s.p) == 0 && s.history == [Secret(s.p)] && s.threads == map[]
    && (s.p.SessionProvider? ==> s.p.session.cached == [])
  }

  ghost predicate Reachable(s: System) {
    exists s0, steps :: Initial(s0) && Path(s0, steps, s)
  }

  // ----- the invariant -----

  /** The credential is the one issued at its generation. */
  predicate Issued(history: seq<Bytes>, cred: Cred) {
    cred.gen < |history| && history[cred.gen] == cred.secret
  }

  predicate Snapshots(p: Provider, history: seq<Bytes>) {
    && |history| == Gen(p) + 1
    && (Secret(p) == history[Gen(p)] || (p.SessionProvider? && Secret(p) == []))
  }

  predicate Consistent(p: Provider, history: seq<Bytes>, pc: Pc) {
    match pc
    case Ready(attempt, rejected) =>
      (attempt == 0 && rejected.None?) ||
      (attempt == 1 && rejected.Some? && Issued(history, rejected.value) && Over(p, rejected.value.gen))
    case Sent(attempt, cred, rejected) =>
      Issued(history, cred) &&
      ((attempt == 0 && rejected.None?) ||
       (attempt == 1 && rejected.Some? && Issued(history, rejected.value) && rejected.value.gen < cred.gen))
    case Unauthorized(cred) => Issued(history, cred)
    case _ => true
  }

  ghost predicate Inv(s: System) {
    && Snapshots(s.p, s.history)
    && forall t | t in s.threads :: Consistent(s.p, s.history, s.threads[t])
  }

  lemma ApplyKeepsSnapshots(p: Provider, history: seq<Bytes>, env: Env)
    requires Snapshots(p, history)
    ensures var p', cred := Client.Apply(p, env), Applied(p, env);
      && Snapshots(p', history + ApplySecrets(p, env))
      && (cred.Some? ==> Issued(history + ApplySecrets(p, env), cred.value))
  {
    if p.SessionProvider? {
      Session.EnsureOutcome(p.cfg, p.session, env.now, env.script);
      hide Session.Ensure;
    }
  }

  lemma InvalidateKeepsSnapshots(p: Provider, history: seq<Bytes>, gen: nat, env: Env)
    requires Snapshots(p, history)
    ensures var p' := Client.Invalidate(p, gen, env);
      Snapshots(p', history + InvalidateSecrets(p, gen, env))
  {
  }

  /** What one goroutine relies on survives whatever the provider does for another. */
  lemma ConsistentIsStable(p: Provider, history: seq<Bytes>, p': Provider, history': seq<Bytes>, pc: Pc)
    requires Consistent(p, history, pc)
    requires history <= history'
    requires forall g: nat :: Over(p, g) ==> Over(p', g)
    ensures Consistent(p', history', pc)
  {
  }

  lemma ApplyKeepsInv(s: System, step: Step)
    requires Inv(s) && step.Apply? && Enabled(s, step)
    ensures Inv(Next(s, step))
  {
    var s' := Next(s, step);
    ApplyKeepsSnapshots(s.p, s.history, step.env);
    forall g: nat
      ensures Over(s.p, g) ==> Over(s'.p, g)
      ensures Over(s.p, g) && Applied(s.p, step.env).Some? ==> Applied(s.p, step.env).value.gen > g
    {
      ApplyContract(s.p, step.env, g);
    }
    hide Client.Apply, Applied, Over, ApplySecrets, Snapshots;
    forall t | t in s'.threads
      ensures Consistent(s'.p, s'.history, s'.threads[t])
    {
      ConsistentIsStable(s.p, s.history, s'.p, s'.history, s.threads[t]);
    }
  }

  lemma InvalidateKeepsInv(s: System, step: Step)
    requires Inv(s) && step.Invalidate? && Enabled(s, step)
    ensures Inv(Next(s, step))
  {
    var s' := Next(s, step);
    var gen := s.threads[step.t].cred.gen;
    InvalidateKeepsSnapshots(s.p, s.history, gen, step.env);
    forall g: nat
      ensures Over(s.p, g) ==> Over(s'.p, g)
    {
      InvalidateContract(s.p, gen, step.env, g);
    }
    InvalidateContract(s.p, gen, step.env, gen);
    assert gen <= Gen(s.p);
    hide Client.Invalidate, Invalidated, Over, InvalidateSecrets, Snapshots;
    forall t | t in s'.threads
      ensures Consistent(s'.p, s'.history, s'.threads[t])
    {
      ConsistentIsStable(s.p, s.history, s'.p, s'.history, s.threads[t]);
    }
  }

  lemma StepKeepsInv(s: System, step: Step)
    requires Inv(s) && Enabled(s, step)
    ensures Inv(Next(s, step))
  {
    match step
    case Apply(_, _) => ApplyKeepsInv(s, step);
    case Invalidate(_, _) => InvalidateKeepsInv(s, step);
    case _ =>
  }

  lemma {:induction false} PathKeepsInv(s: System, steps: seq<Step>, s': System)
    requires Inv(s) && Path(s, steps, s')
    ensures Inv(s')
    decreases |steps|
  {
    hide Inv, Enabled, Next;
    if steps != [] {
      StepKeepsInv(s, steps[0]);
      PathKeepsInv(Next(s, steps[0]), steps[1..], s');
    }
  }

  lemma ReachableInv(s: System)
    requires Reachable(s)
    ensures Inv(s)
  {
    var s0, steps :| Initial(s0) && Path(s0, steps, s);
    PathKeepsInv(s0, steps, s);
  }

  // ----- race safety -----

  predicate NoRepeats(history: seq<Bytes>) {
    forall i, j | 0 <= i < j < |history| :: history[i] != history[j]
  }

  /**
   In every interleaving a retry goes out with a credential of a later generation than the one that
   was rejected, and so with another secret if the server never issues the same secret twice.
   */
  lemma RetryUsesANewCredential(s: System, t: Thread)
    requires Reachable(s)
    requires t in s.threads && s.threads[t].Sent? && s.threads[t].attempt > 0
    ensures var pc := s.threads[t];
      && pc.rejected.Some? && pc.rejected.value.gen < pc.cred.gen
      && Issued(s.history, pc.cred) && Issued(s.history, pc.rejected.value)
      && (NoRepeats(s.history) ==> pc.cred.secret != pc.rejected.value.secret)
  {
    ReachableInv(s);
    assert Consistent(s.p, s.history, s.threads[t]);
  }

  /** A stale 401 drops nothing: once a newer credential is there, invalidating the old one changes nothing. */
  lemma StaleRejectionIsHarmless(s: System, t: Thread, env: Env)
    requires Reachable(s)
    requires t in s.threads && s.threads[t].Unauthorized? && s.threads[t].cred.gen != Gen(s.p)
    ensures s.threads[t].cred.gen < Gen(s.p)
    ensures var s' := Next(s, Invalidate(t, env));
      s'.p == s.p && s'.history == s.history && s'.threads[t] == Ready(1, Some(s.threads[t].cred))
  {
    ReachableInv(s);
    assert Consistent(s.p, s.history, s.threads[t]);
    InvalidateContract(s.p, s.threads[t].cred.gen, env, 0);
  }

  /** What a goroutine holds is what was issued at the generation it holds; the cache is never stale. */
  lemma SnapshotsAreConsistent(s: System)
    requires Reachable(s)
    ensures |s.history| == Gen(s.p) + 1
    ensures Secret(s.p) == s.history[Gen(s.p)] || (s.p.SessionProvider? && Secret(s.p) == [])
    ensures forall t | t in s.threads && (s.threads[t].Sent? || s.threads[t].Unauthorized?) ::
      Issued(s.history, s.threads[t].cred)
  {
    ReachableInv(s);
    forall t | t in s.threads && (s.threads[t].Sent? || s.threads[t].Unauthorized?)
      ensures Issued(s.history, s.threads[t].cred)
    {
      assert Consistent(s.p, s.history, s.threads[t]);
    }
  }

  /** How many events a request can still see. */
  function Fuel(pc: Pc): nat {
    match pc
    case Ready(attempt, _) => if attempt == 0 then 5 else 2
    case Sent(attempt, _, _) => if attempt == 0 then 4 else 1
    case Unauthorized(_) => 3
    case _ => 0
  }

  /** Every event brings its request nearer to its end: at most two attempts and one invalidation. */
  lemma RequestsEnd(s: System, step: Step)
    requires Reachable(s) && Enabled(s, step) && !step.Begin?
    ensures Fuel(Next(s, step).threads[step.t]) < Fuel(s.threads[step.t]) <= 5
    ensures forall u | u in s.threads && u != step.t :: Next(s, step).threads[u] == s.threads[u]
  {
    ReachableInv(s);
    assert Consistent(s.p, s.history, s.threads[step.t]);
  }
}
