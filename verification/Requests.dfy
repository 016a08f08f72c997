/**
 internal/metabase/client.go: doJSON as a loop over a provider object. Between its own calls other
 goroutines may use the same provider in any way.
 */
module Requests {
  import opened Wrappers
  import opened GoStrings
  import opened Client
  import Session
  import OAuth

  /** The two implementations of the authProvider interface. */
  datatype AuthProvider =
    | SessionAuth(session: Session.SessionManager)
    | OAuthAuth(manager: OAuth.Manager)

  function Objects(auth: AuthProvider): set<object> {
    match auth
    case SessionAuth(s) => {s}
    case OAuthAuth(m) => {m}
  }

  function View(auth: AuthProvider): Provider
    reads Objects(auth)
  {
    match auth
    case SessionAuth(s) => SessionProvider(s.cfg, s.View())
    case OAuthAuth(m) => OAuthProvider(m.View())
  }

  method ApplyTo(auth: AuthProvider, env: Env) returns (cred: Option<Cred>)
    modifies Objects(auth)
    ensures View(auth) == Apply(old(View(auth)), env)
    ensures cred == Applied(old(View(auth)), env)
  {
    match auth
    case SessionAuth(s) =>
      var r, posts := s.EnsureSession(env.now, env.script);
      return if r.Ok? then Some(Cred(r.id, r.gen)) else None;
    case OAuthAuth(m) =>
      var r := m.Token(env.unexpired, env.reply, env.save);
      return if r.Ok? then Some(Cred(r.access, r.gen)) else None;
  }

  method InvalidateAt(auth: AuthProvider, gen: nat, env: Env) returns (ok: bool)
    modifies Objects(auth)
    ensures View(auth) == Invalidate(old(View(auth)), gen, env)
    ensures ok == Invalidated(old(View(auth)), gen, env)
  {
    match auth
    case SessionAuth(s) =>
      s.Invalidate(gen);
      return true;
    case OAuthAuth(m) =>
      ok := m.ForceRefresh(gen, env.reply, env.save);
  }

  // ----- other goroutines -----

  datatype Call = ApplyCall(env: Env) | InvalidateCall(gen: nat, env: Env)

  function AfterCalls(p: Provider, calls: seq<Call>): Provider {
    if calls == [] then p
    else
      var p' := AfterCalls(p, calls[..|calls| - 1]);
      match calls[|calls| - 1]
      case ApplyCall(env) => Apply(p', env)
      case InvalidateCall(gen, env) => Invalidate(p', gen, env)
  }

  method Interfere(auth: AuthProvider, calls: seq<Call>)
    modifies Objects(auth)
    ensures View(auth) == AfterCalls(old(View(auth)), calls)
  {
    for i := 0 to |calls|
      invariant View(auth) == AfterCalls(old(View(auth)), calls[..i])
    {
      assert calls[..i + 1][..i] == calls[..i];
      match calls[i] {
        case ApplyCall(env) => var cred := ApplyTo(auth, env);
        case InvalidateCall(gen, env) => var ok := InvalidateAt(auth, gen, env);
      }
    }
    assert calls[..|calls|] == calls;
  }

  lemma {:induction false} OverIsStable(p: Provider, calls: seq<Call>, g: nat)
    ensures Gen(p) <= Gen(AfterCalls(p, calls))
    ensures Over(p, g) ==> Over(AfterCalls(p, calls), g)
  {
    if calls != [] {
      var last := |calls| - 1;
      OverIsStable(p, calls[..last], g);
      var p' := AfterCalls(p, calls[..last]);
      match calls[last]
      case ApplyCall(env) => ApplyContract(p', env, g);
      case InvalidateCall(gen, env) => InvalidateContract(p', gen, env, g);
    }
  }

  // ----- doJSON -----

  /** The reply to the HTTP request, None when the transport fails. */
  datatype Reply = Reply(status: int, retryable: bool, decodes: bool)

  /** What one attempt meets: the calls of others before apply and before invalidate, and the outside. */
  datatype Round = Round(
    built: bool, before: seq<Call>, apply: Env, reply: Option<Reply>, between: seq<Call>, invalidate: Env)

  /** The provider after a request, its failure if any, and the credentials it sent, in order. */
  datatype Served = Served(p: Provider, failure: Option<Failure>, sent: seq<Cred>)

  /** A request from its given attempt on. */
  function Serve(p: Provider, rounds: nat -> Round, attempt: nat): Served
    requires attempt <= 1
    decreases 1 - attempt
  {
    var round := rounds(attempt);
    var p1 := AfterCalls(p, round.before);
    var p2 := Apply(p1, round.apply);
    var cred := Applied(p1, round.apply);
    if !round.built then Served(p, Some(NotBuilt), [])
    else if cred.None? then Served(p2, Some(NoCredential), [])
    else if round.reply.None? then Served(p2, Some(NoReply), [cred.value])
    else
      var Reply(status, retryable, decodes) := round.reply.value;
      var pc := AfterReply(attempt, cred.value, Replied(status, retryable, decodes));
      match pc
      case Unauthorized(c) =>
        var p3 := AfterCalls(p2, round.between);
        var p4 := Invalidate(p3, c.gen, round.invalidate);
        if Invalidated(p3, c.gen, round.invalidate) then Behind([c], Serve(p4, rounds, attempt + 1))
        else Served(p4, Some(RefreshFailed), [c])
      case GaveUp(failure) => Served(p2, Some(failure), [cred.value])
      case _ => Served(p2, None, [cred.value])
  }

  function Behind(sent: seq<Cred>, served: Served): Served {
    served.(sent := sent + served.sent)
  }

  /** The state of a request after these events, if they can happen in this order. */
  function Replay(events: seq<Event>): Option<Pc> {
    if events == [] then Some(Ready(0, None))
    else
      var pc := Replay(events[..|events| - 1]);
      if pc.Some? && Expects(pc.value, events[|events| - 1])
      then Some(Advance(pc.value, events[|events| - 1]))
      else None
  }

  /** The credentials that were sent, in order. */
  function Sent(events: seq<Event>): seq<Cred> {
    if events == [] then []
    else
      Sent(events[..|events| - 1]) +
      if events[|events| - 1].CredentialApplied? then [events[|events| - 1].cred] else []
  }

  // ----- what the events say -----

  /** The events of a first attempt that was answered with a 401 and is followed by another one. */
  predicate IsRetried(es: seq<Event>) {
    && |es| == 3
    && es[0].CredentialApplied?
    && es[1].Replied? && es[1].status == 401 && es[1].retryable
    && es[2].CredentialInvalidated?
  }

  /** What precedes an attempt: nothing, or a first attempt that is retried. */
  predicate Precedes(es: seq<Event>) {
    es == [] || IsRetried(es)
  }

  /** The last attempt got this far: a credential was applied, and then this happened. */
  predicate EndsWith(es: seq<Event>, last: Event) {
    |es| >= 2 && Precedes(es[..|es| - 2]) && es[|es| - 2].CredentialApplied? && es[|es| - 1] == last
  }

  /** How a request ends, by its events: without a failure on a reply 200 to 299 that can be decoded. */
  predicate Told(es: seq<Event>, failure: Option<Failure>) {
    && es != []
    && var last := es[|es| - 1];
       match failure
       case None => EndsWith(es, last) && last.Replied? && 200 <= last.status < 300 && last.decodes
       case Some(NotBuilt) => Precedes(es[..|es| - 1]) && last.BuildFailed?
       case Some(NoCredential) => Precedes(es[..|es| - 1]) && last.ApplyFailed?
       case Some(NoReply) => EndsWith(es, last) && last.TransportFailed?
       case Some(NotRetryable) => EndsWith(es, last) && last.Replied? && last.status == 401 && !last.retryable
       case Some(Repeated401) =>
         EndsWith(es, last) && |es| == 5 && last.Replied? && last.status == 401 && last.retryable
       case Some(RefreshFailed) =>
         && |es| == 3 && last.InvalidateFailed?
         && EndsWith(es[..2], es[1]) && es[1].Replied? && es[1].status == 401 && es[1].retryable
       case Some(BadStatus(n)) =>
         EndsWith(es, last) && last.Replied? && last.status == n && n != 401 && !(200 <= n < 300)
       case Some(NotDecoded) => EndsWith(es, last) && last.Replied? && 200 <= last.status < 300 && !last.decodes
  }

  /** The events tell one ending only. */
  lemma ToldOnce(es: seq<Event>, f: Option<Failure>, g: Option<Failure>)
    requires Told(es, f) && Told(es, g)
    ensures f == g
  {
  }

  /** A request succeeds exactly with a reply 200 to 299 that can be decoded, and so on for each failure. */
  lemma VerdictIff(es: seq<Event>, failure: Option<Failure>)
    requires Told(es, failure)
    ensures var last := es[|es| - 1];
      && (failure == None <==> last.Replied? && 200 <= last.status < 300 && last.decodes)
      && (failure == Some(NotDecoded) <==> last.Replied? && 200 <= last.status < 300 && !last.decodes)
      && (failure == Some(NotRetryable) <==> last.Replied? && last.status == 401 && !last.retryable)
      && (failure == Some(Repeated401) <==> last.Replied? && last.status == 401 && last.retryable)
      && (forall n :: failure == Some(BadStatus(n)) <==>
            last.Replied? && last.status == n && n != 401 && !(200 <= n < 300))
      && (failure == Some(NotBuilt) <==> last.BuildFailed?)
      && (failure == Some(NoCredential) <==> last.ApplyFailed?)
      && (failure == Some(NoReply) <==> last.TransportFailed?)
      && (failure == Some(RefreshFailed) <==> last.InvalidateFailed?)
  {
  }

  /** A second credential goes out only behind a retryable 401 and a successful invalidation. */
  lemma SecondCredentialNeedsARetry(es: seq<Event>, failure: Option<Failure>)
    requires Told(es, failure)
    ensures forall i | 0 <= i < |es| && es[i].CredentialApplied? :: i == 0 || (i == 3 && IsRetried(es[..3]))
  {
    assert forall n: nat | n <= |es| - 1 && Precedes(es[..n]) :: n == 0 || (n == 3 && IsRetried(es[..3]));
  }

  lemma {:induction false} SentWasApplied(es: seq<Event>, cred: Cred)
    ensures cred in Sent(es) <==> CredentialApplied(cred) in es
  {
    if es != [] {
      SentWasApplied(es[..|es| - 1], cred);
      assert es == es[..|es| - 1] + [es[|es| - 1]];
    }
  }

  /** What the events of an attempt that starts at index b have to do with what it meets. */
  predicate Reports(es: seq<Event>, b: nat, round: Round) {
    && (|es| > b ==> (es[b].BuildFailed? <==> !round.built))
    && (|es| > b + 1 && es[b + 1].TransportFailed? ==> round.reply == None)
    && (|es| > b + 1 && es[b + 1].Replied? ==>
          round.reply == Some(Reply(es[b + 1].status, es[b + 1].retryable, es[b + 1].decodes)))
  }

  /** What the events are at each point of a request. */
  predicate ToldSoFar(es: seq<Event>, pc: Pc) {
    match pc
    case Ready(attempt, rejected) => attempt <= 1 && if attempt == 0 then es == [] else IsRetried(es)
    case Sent(attempt, cred, _) =>
      && attempt <= 1 && |es| == (if attempt == 0 then 1 else 4)
      && Precedes(es[..|es| - 1]) && es[|es| - 1] == CredentialApplied(cred)
    case Unauthorized(cred) =>
      |es| == 2 && EndsWith(es, es[1]) && es[1].Replied? && es[1].status == 401 && es[1].retryable
    case Succeeded => Told(es, None)
    case GaveUp(failure) => Told(es, Some(failure))
  }

  lemma {:induction false} ReplayMeans(es: seq<Event>)
    requires Replay(es).Some?
    ensures ToldSoFar(es, Replay(es).value)
  {
    if es != [] {
      var last := |es| - 1;
      ReplayMeans(es[..last]);
      var pc := Replay(es[..last]).value;
      hide Replay;
      EventTold(es[..last], pc, es[last]);
      assert es == es[..last] + [es[last]];
    }
  }

  lemma EventTold(es: seq<Event>, pc: Pc, ev: Event)
    requires ToldSoFar(es, pc) && Expects(pc, ev)
    ensures ToldSoFar(es + [ev], Advance(pc, ev))
  {
    var es' := es + [ev];
    assert es'[..|es|] == es;
    if |es| > 0 {
      assert es'[..|es| - 1] == es[..|es| - 1];
    }
  }

  lemma ReplayMore(events: seq<Event>, ev: Event)
    requires Replay(events).Some? && Expects(Replay(events).value, ev)
    ensures Replay(events + [ev]) == Some(Advance(Replay(events).value, ev))
    ensures Sent(events + [ev]) == Sent(events) + if ev.CredentialApplied? then [ev.cred] else []
  {
    assert (events + [ev])[..|events|] == events;
  }

  /** Whatever other goroutines do in between, a retry carries a credential of a later generation. */
  lemma RetryIsNewer(p: Provider, rounds: nat -> Round)
    ensures var sent := Serve(p, rounds, 0).sent;
      |sent| <= 2 && (|sent| == 2 ==> sent[0].gen < sent[1].gen)
  {
    var round := rounds(0);
    var p1 := AfterCalls(p, round.before);
    ApplyContract(p1, round.apply, 0);
    if Applied(p1, round.apply).Some? {
      var cred, p2 := Applied(p1, round.apply).value, Apply(p1, round.apply);
      var p3 := AfterCalls(p2, round.between);
      OverIsStable(p2, round.between, cred.gen);
      InvalidateContract(p3, cred.gen, round.invalidate, cred.gen);
      var p4 := Invalidate(p3, cred.gen, round.invalidate);
      OverIsStable(p4, rounds(1).before, cred.gen);
      ApplyContract(AfterCalls(p4, rounds(1).before), rounds(1).apply, cred.gen);
      hide Apply, Applied, Invalidate, Invalidated, AfterCalls, Over, Gen;
      LastAttempt(p4, rounds);
    }
  }

  /** The second attempt sends at most one request, with what the provider applied. */
  lemma LastAttempt(p: Provider, rounds: nat -> Round)
    ensures var sent, cred := Serve(p, rounds, 1).sent, Applied(AfterCalls(p, rounds(1).before), rounds(1).apply);
      sent == [] || (cred.Some? && sent == [cred.value])
  {
  }

  /** The events of one HTTP call up to its reply. */
  function Happened(p: Provider, round: Round): seq<Event> {
    var cred := Applied(AfterCalls(p, round.before), round.apply);
    if !round.built then [BuildFailed]
    else if cred == None then [ApplyFailed]
    else if round.reply == None then [CredentialApplied(cred.value), TransportFailed]
    else [CredentialApplied(cred.value)]
  }

  /** What one HTTP call makes of the provider and of the events, and what it returns. */
  ghost predicate Attempted(p: Provider, round: Round, attempt: nat, rejected: Option<Cred>, events: seq<Event>,
                            p': Provider, cred: Cred, reply: Option<Reply>, failure: Failure, events': seq<Event>)
  {
    && Replay(events') == Some(if reply.Some? then Pc.Sent(attempt, cred, rejected) else GaveUp(failure))
    && events' == events + Happened(p, round)
    && (!round.built ==> p' == p && reply == None && failure == NotBuilt && Sent(events') == Sent(events))
    && (round.built ==>
          var p1 := AfterCalls(p, round.before);
          && p' == Apply(p1, round.apply)
          && match Applied(p1, round.apply)
             case None => reply == None && failure == NoCredential && Sent(events') == Sent(events)
             case Some(c) => && cred == c && reply == round.reply && Sent(events') == Sent(events) + [c]
                             && (reply == None ==> failure == NoReply))
  }

  /** One HTTP call: its credential and status, or the event that made it fail. */
  method RoundTrip(auth: AuthProvider, round: Round, ghost events: seq<Event>, ghost attempt: nat,
                   ghost rejected: Option<Cred>)
    returns (cred: Cred, reply: Option<Reply>, failure: Failure, ghost events': seq<Event>)
    requires Replay(events) == Some(Ready(attempt, rejected))
    requires rejected.Some? ==> Over(View(auth), rejected.value.gen)
    modifies Objects(auth)
    ensures Attempted(old(View(auth)), round, attempt, rejected, events, View(auth), cred, reply, failure, events')
    ensures Sent(events') == Sent(events) || (Sent(events') == Sent(events) + [cred]
      && (rejected.Some? ==> rejected.value.gen < cred.gen))
    ensures reply.Some? ==> cred.gen <= Gen(View(auth))
  {
    hide Replay, Sent, Apply, Applied, AfterCalls, Over, Gen, View;
    cred, failure := Cred([], 0), NotBuilt;
    if !round.built {
      ReplayMore(events, BuildFailed);
      return cred, None, NotBuilt, events + [BuildFailed];
    }
    Interfere(auth, round.before);
    ghost var p := View(auth);
    var applied := ApplyTo(auth, round.apply);
    ghost var g := if rejected.Some? then rejected.value.gen else 0;
    OverIsStable(old(View(auth)), round.before, g);
    ApplyContract(p, round.apply, g);
    if applied.None? {
      ReplayMore(events, ApplyFailed);
      return cred, None, NoCredential, events + [ApplyFailed];
    }
    cred := applied.value;
    ReplayMore(events, CredentialApplied(cred));
    events' := events + [CredentialApplied(cred)];
    if round.reply.None? {
      ReplayMore(events', TransportFailed);
      assert events' + [TransportFailed] == events + [CredentialApplied(cred), TransportFailed];
      return cred, None, NoReply, events' + [TransportFailed];
    }
    reply := round.reply;
  }

  /** invalidate, after any calls of other goroutines: when it succeeds, the generation is over for good. */
  method GiveUpCredential(auth: AuthProvider, gen: nat, round: Round) returns (ok: bool)
    requires gen <= Gen(View(auth))
    modifies Objects(auth)
    ensures View(auth) == Invalidate(AfterCalls(old(View(auth)), round.between), gen, round.invalidate)
    ensures ok == Invalidated(AfterCalls(old(View(auth)), round.between), gen, round.invalidate)
    ensures ok ==> Over(View(auth), gen)
  {
    OverIsStable(View(auth), round.between, gen);
    Interfere(auth, round.between);
    InvalidateContract(View(auth), gen, round.invalidate, gen);
    ok := InvalidateAt(auth, gen, round.invalidate);
  }

  /** The request has come to this attempt, and what is left of it is served from p. */
  ghost predicate Underway(start: Provider, rounds: nat -> Round, p: Provider, attempt: nat, rejected: Option<Cred>,
                           events: seq<Event>)
  {
    && attempt <= 1
    && Replay(events) == Some(Ready(attempt, rejected))
    && Serve(start, rounds, 0) == Behind(Sent(events), Serve(p, rounds, attempt))
    && |events| == 3 * attempt
    && (attempt == 1 ==> Reports(events, 0, rounds(0)))
  }

  ghost predicate Finished(start: Provider, rounds: nat -> Round, p: Provider, failure: Option<Failure>,
                           events: seq<Event>)
  {
    && Replay(events) == Some(if failure.None? then Succeeded else GaveUp(failure.value))
    && Served(p, failure, Sent(events)) == Serve(start, rounds, 0)
    && Told(events, failure)
    && Reports(events, 0, rounds(0))
    && (|events| > 3 ==> Reports(events, 3, rounds(1)))
  }

  /** The events of an attempt without a reply tell of its round, and those before it of theirs. */
  lemma AttemptReports(p: Provider, rounds: nat -> Round, attempt: nat, events: seq<Event>, events': seq<Event>)
    requires attempt <= 1 && |events| == 3 * attempt && (attempt == 1 ==> Reports(events, 0, rounds(0)))
    requires events' == events + Happened(p, rounds(attempt))
    ensures Reports(events', 0, rounds(0)) && (|events'| > 3 ==> Reports(events', 3, rounds(1)))
    ensures |events'| > 3 <==> attempt == 1
  {
    hide AfterCalls, Applied;
  }

  lemma ReplyReports(p: Provider, rounds: nat -> Round, attempt: nat, events: seq<Event>, events': seq<Event>,
                     reply: Reply, replied: Event)
    requires attempt <= 1 && |events| == 3 * attempt && (attempt == 1 ==> Reports(events, 0, rounds(0)))
    requires events' == events + Happened(p, rounds(attempt))
    requires rounds(attempt).built && Applied(AfterCalls(p, rounds(attempt).before), rounds(attempt).apply).Some?
    requires rounds(attempt).reply == Some(reply)
    requires replied == Replied(reply.status, reply.retryable, reply.decodes)
    ensures var es := events' + [replied];
      && Reports(es, 0, rounds(0)) && (|es| > 3 ==> Reports(es, 3, rounds(1)))
      && |es| == 3 * attempt + 2
  {
    hide AfterCalls, Applied;
  }

  /** An attempt without a reply: how it is served, and what it has sent. */
  lemma Unanswered(p: Provider, rounds: nat -> Round, attempt: nat, rejected: Option<Cred>, events: seq<Event>,
                   p': Provider, cred: Cred, failure: Failure, events': seq<Event>) returns (sent: seq<Cred>)
    requires attempt <= 1
    requires Attempted(p, rounds(attempt), attempt, rejected, events, p', cred, None, failure, events')
    ensures Serve(p, rounds, attempt) == Served(p', Some(failure), sent)
    ensures Sent(events') == Sent(events) + sent && Replay(events') == Some(GaveUp(failure))
    ensures events' == events + Happened(p, rounds(attempt))
  {
    var round := rounds(attempt);
    var applied := Applied(AfterCalls(p, round.before), round.apply);
    hide AfterCalls, Apply, Applied, Invalidate, Invalidated, Replay, Sent, Happened;
    sent := if round.built && applied.Some? then [applied.value] else [];
    assert Sent(events) + [] == Sent(events);
  }

  /** An attempt with a reply. */
  lemma Answered(p: Provider, round: Round, attempt: nat, rejected: Option<Cred>, events: seq<Event>,
                 p': Provider, cred: Cred, reply: Reply, failure: Failure, events': seq<Event>)
    requires Attempted(p, round, attempt, rejected, events, p', cred, Some(reply), failure, events')
    ensures round.built && round.reply == Some(reply)
    ensures Applied(AfterCalls(p, round.before), round.apply) == Some(cred)
    ensures p' == Apply(AfterCalls(p, round.before), round.apply)
    ensures Sent(events') == Sent(events) + [cred] && Replay(events') == Some(Pc.Sent(attempt, cred, rejected))
    ensures events' == events + Happened(p, round)
  {
    hide AfterCalls, Apply, Applied, Replay, Sent, Happened;
  }

  /** What a reply that ends the request makes of the attempt that it answers. */
  lemma ServeEnds(p: Provider, rounds: nat -> Round, attempt: nat, cred: Cred, reply: Reply)
    requires attempt <= 1 && rounds(attempt).built && rounds(attempt).reply == Some(reply)
    requires Applied(AfterCalls(p, rounds(attempt).before), rounds(attempt).apply) == Some(cred)
    ensures var p2 := Apply(AfterCalls(p, rounds(attempt).before), rounds(attempt).apply);
      match AfterReply(attempt, cred, Replied(reply.status, reply.retryable, reply.decodes))
      case GaveUp(failure) => Serve(p, rounds, attempt) == Served(p2, Some(failure), [cred])
      case Succeeded => Serve(p, rounds, attempt) == Served(p2, None, [cred])
      case _ => true
  {
    hide AfterCalls, Apply, Applied, Invalidate, Invalidated;
  }

  lemma FinishesWith(start: Provider, rounds: nat -> Round, p: Provider, p': Provider, attempt: nat, before: seq<Cred>,
                     sent: seq<Cred>, failure: Option<Failure>, es: seq<Event>)
    requires attempt <= 1 && Serve(start, rounds, 0) == Behind(before, Serve(p, rounds, attempt))
    requires Serve(p, rounds, attempt) == Served(p', failure, sent)
    requires Sent(es) == before + sent
    requires Replay(es) == Some(if failure.None? then Succeeded else GaveUp(failure.value))
    requires Reports(es, 0, rounds(0)) && (|es| > 3 ==> Reports(es, 3, rounds(1)))
    ensures Finished(start, rounds, p', failure, es)
  {
    ReplayMeans(es);
    hide Told, Reports, Replay, Sent, Serve;
  }

  lemma EndsWithoutReply(start: Provider, rounds: nat -> Round, p: Provider, attempt: nat, rejected: Option<Cred>,
                         events: seq<Event>, p': Provider, cred: Cred, failure: Failure, events': seq<Event>)
    requires Underway(start, rounds, p, attempt, rejected, events)
    requires Attempted(p, rounds(attempt), attempt, rejected, events, p', cred, None, failure, events')
    ensures Finished(start, rounds, p', Some(failure), events')
  {
    hide Attempted, Reports, Happened, Replay, Sent, Serve, Finished;
    var sent := Unanswered(p, rounds, attempt, rejected, events, p', cred, failure, events');
    AttemptReports(p, rounds, attempt, events, events');
    FinishesWith(start, rounds, p, p', attempt, Sent(events), sent, Some(failure), events');
  }

  lemma EndsWithReply(start: Provider, rounds: nat -> Round, p: Provider, attempt: nat, rejected: Option<Cred>,
                      events: seq<Event>, p': Provider, cred: Cred, reply: Reply, failure: Failure,
                      events': seq<Event>, replied: Event)
    requires Underway(start, rounds, p, attempt, rejected, events)
    requires Attempted(p, rounds(attempt), attempt, rejected, events, p', cred, Some(reply), failure, events')
    requires replied == Replied(reply.status, reply.retryable, reply.decodes)
    ensures match AfterReply(attempt, cred, replied)
      case GaveUp(failure) => Finished(start, rounds, p', Some(failure), events' + [replied])
      case Succeeded => Finished(start, rounds, p', None, events' + [replied])
      case _ => true
  {
    hide Attempted, Reports, Happened, AfterReply, Serve, Replay, Sent, Finished;
    var pc, es := AfterReply(attempt, cred, replied), events' + [replied];
    Answered(p, rounds(attempt), attempt, rejected, events, p', cred, reply, failure, events');
    ReplayMore(events', replied);
    ReplyReports(p, rounds, attempt, events, events', reply, replied);
    ServeEnds(p, rounds, attempt, cred, reply);
    hide AfterCalls, Apply, Applied;
    assert Sent(es) == Sent(events) + [cred];
    if pc.GaveUp? {
      FinishesWith(start, rounds, p, p', attempt, Sent(events), [cred], Some(pc.failure), es);
    } else if pc.Succeeded? {
      FinishesWith(start, rounds, p, p', attempt, Sent(events), [cred], None, es);
    }
  }

  /** What a first 401 that can be retried makes of the rest of the request. */
  lemma ServeRejected(p: Provider, rounds: nat -> Round, cred: Cred, reply: Reply)
    requires rounds(0).built && rounds(0).reply == Some(reply) && reply.status == 401 && reply.retryable
    requires Applied(AfterCalls(p, rounds(0).before), rounds(0).apply) == Some(cred)
    ensures var p2 := Apply(AfterCalls(p, rounds(0).before), rounds(0).apply);
      var p3, env := AfterCalls(p2, rounds(0).between), rounds(0).invalidate;
      Serve(p, rounds, 0) == if Invalidated(p3, cred.gen, env)
                             then Behind([cred], Serve(Invalidate(p3, cred.gen, env), rounds, 1))
                             else Served(Invalidate(p3, cred.gen, env), Some(RefreshFailed), [cred])
  {
    hide AfterCalls, Apply, Applied, Invalidate, Invalidated;
  }

  lemma EventsOfRejection(events: seq<Event>, cred: Cred, rejected: Option<Cred>, replied: Event, last: Event)
    requires Replay(events) == Some(Pc.Sent(0, cred, rejected))
    requires replied.Replied? && replied.status == 401 && replied.retryable
    requires last.CredentialInvalidated? || last.InvalidateFailed?
    ensures Replay(events + [replied] + [last])
         == Some(if last.CredentialInvalidated? then Ready(1, Some(cred)) else GaveUp(RefreshFailed))
    ensures Sent(events + [replied] + [last]) == Sent(events)
  {
    ReplayMore(events, replied);
    ReplayMore(events + [replied], last);
    hide Replay, Sent;
  }

  lemma BehindBoth(a: seq<Cred>, b: seq<Cred>, served: Served)
    ensures Behind(a, Behind(b, served)) == Behind(a + b, served)
  {
    assert a + (b + served.sent) == (a + b) + served.sent;
  }

  lemma EndsOrGoesOn(start: Provider, rounds: nat -> Round, p: Provider, rejected: Option<Cred>, events: seq<Event>,
                     p': Provider, cred: Cred, reply: Reply, failure: Failure, events': seq<Event>, replied: Event)
    requires Underway(start, rounds, p, 0, rejected, events)
    requires Attempted(p, rounds(0), 0, rejected, events, p', cred, Some(reply), failure, events')
    requires replied == Replied(reply.status, reply.retryable, reply.decodes)
    requires reply.status == 401 && reply.retryable
    ensures var p3, env := AfterCalls(p', rounds(0).between), rounds(0).invalidate;
      var p4 := Invalidate(p3, cred.gen, env);
      if Invalidated(p3, cred.gen, env)
      then Underway(start, rounds, p4, 1, Some(cred), events' + [replied] + [CredentialInvalidated])
      else Finished(start, rounds, p4, Some(RefreshFailed), events' + [replied] + [InvalidateFailed])
  {
    hide Attempted, Told, Reports, Happened, AfterReply, Serve, Replay, Sent, Finished, Underway;
    var round, es := rounds(0), events' + [replied];
    var p3 := AfterCalls(p', round.between);
    Answered(p, round, 0, rejected, events, p', cred, reply, failure, events');
    UnderwayFirst(start, rounds, p, rejected, events);
    ServeRejected(p, rounds, cred, reply);
    ReplyReports(p, rounds, 0, events, events', reply, replied);
    hide AfterCalls, Apply, Applied;
    if Invalidated(p3, cred.gen, round.invalidate) {
      hide Invalidated;
      EventsOfRejection(events', cred, rejected, replied, CredentialInvalidated);
      ThirdEventReports(es, CredentialInvalidated, round);
      GoesOn(start, rounds, p, Invalidate(p3, cred.gen, round.invalidate), Sent(events), cred,
             es + [CredentialInvalidated]);
    } else {
      hide Invalidated;
      EventsOfRejection(events', cred, rejected, replied, InvalidateFailed);
      ThirdEventReports(es, InvalidateFailed, round);
      FinishesWith(start, rounds, p, Invalidate(p3, cred.gen, round.invalidate), 0, Sent(events), [cred],
                   Some(RefreshFailed), es + [InvalidateFailed]);
    }
  }

  lemma UnderwayFirst(start: Provider, rounds: nat -> Round, p: Provider, rejected: Option<Cred>, events: seq<Event>)
    requires Underway(start, rounds, p, 0, rejected, events)
    ensures Serve(start, rounds, 0) == Behind(Sent(events), Serve(p, rounds, 0)) && events == []
  {
  }

  lemma GoesOn(start: Provider, rounds: nat -> Round, p: Provider, p': Provider, before: seq<Cred>, cred: Cred,
               es: seq<Event>)
    requires Serve(start, rounds, 0) == Behind(before, Serve(p, rounds, 0))
    requires Serve(p, rounds, 0) == Behind([cred], Serve(p', rounds, 1))
    requires Replay(es) == Some(Ready(1, Some(cred))) && Sent(es) == before + [cred]
    requires |es| == 3 && Reports(es, 0, rounds(0))
    ensures Underway(start, rounds, p', 1, Some(cred), es)
  {
    hide Serve, Replay, Sent, Reports;
    BehindBoth(before, [cred], Serve(p', rounds, 1));
  }

  lemma ThirdEventReports(es: seq<Event>, last: Event, round: Round)
    requires |es| == 2 && Reports(es, 0, round)
    ensures Reports(es + [last], 0, round)
  {
  }

  lemma RequestStarts(start: Provider, rounds: nat -> Round)
    ensures Underway(start, rounds, start, 0, None, [])
  {
  }

  /**
   The loop follows the request's state machine to its end. It sends at most two requests, and
   whatever other goroutines do, the second one carries a credential of a later generation.
   */
  method DoJSON(auth: AuthProvider, rounds: nat -> Round) returns (failure: Option<Failure>, ghost events: seq<Event>)
    modifies Objects(auth)
    ensures Replay(events) == Some(if failure.None? then Succeeded else GaveUp(failure.value))
    ensures Served(View(auth), failure, Sent(events)) == Serve(old(View(auth)), rounds, 0)
    ensures |Sent(events)| <= 2
    ensures |Sent(events)| == 2 ==> Sent(events)[0].gen < Sent(events)[1].gen
    ensures Told(events, failure)
    ensures Reports(events, 0, rounds(0)) && (|events| > 3 ==> Reports(events, 3, rounds(1)))
  {
    hide Told, Reports, Replay, Sent, Over, Apply, Applied, Invalidate, Invalidated, AfterCalls, View, Gen, Serve;
    hide Underway, Attempted;
    ghost var start := View(auth);
    RetryIsNewer(start, rounds);
    RequestStarts(start, rounds);
    events := [];
    var attempt := 0;
    ghost var rejected: Option<Cred> := None;
    while true
      invariant attempt <= 1
      invariant Underway(start, rounds, View(auth), attempt, rejected, events)
      invariant rejected.Some? ==> Over(View(auth), rejected.value.gen)
      decreases 1 - attempt
    {
      ghost var p, before := View(auth), events;
      StillReady(start, rounds, p, attempt, rejected, events);
      var cred, reply, why;
      cred, reply, why, events := RoundTrip(auth, rounds(attempt), events, attempt, rejected);
      if reply.None? {
        EndsWithoutReply(start, rounds, p, attempt, rejected, before, View(auth), cred, why, events);
        return Some(why), events;
      }
      var Reply(status, retryable, decodes) := reply.value;
      ghost var replied := Replied(status, retryable, decodes);
      EndsWithReply(start, rounds, p, attempt, rejected, before, View(auth), cred, reply.value, why, events, replied);
      if status == 401 {
        if attempt == 0 && retryable {
          EndsOrGoesOn(start, rounds, p, rejected, before, View(auth), cred, reply.value, why, events, replied);
          var ok := GiveUpCredential(auth, cred.gen, rounds(attempt));
          if !ok {
            return Some(RefreshFailed), events + [replied] + [InvalidateFailed];
          }
          events := events + [replied] + [CredentialInvalidated];
          rejected := Some(cred);
          attempt := attempt + 1;
          continue;
        }
        if !retryable {
          return Some(NotRetryable), events + [replied];
        }
        return Some(Repeated401), events + [replied];
      }
      if status < 200 || status >= 300 {
        return Some(BadStatus(status)), events + [replied];
      }
      if !decodes {
        return Some(NotDecoded), events + [replied];
      }
      return None, events + [replied];
    }
  }

  lemma StillReady(start: Provider, rounds: nat -> Round, p: Provider, attempt: nat, rejected: Option<Cred>,
                   events: seq<Event>)
    requires Underway(start, rounds, p, attempt, rejected, events)
    ensures Replay(events) == Some(Ready(attempt, rejected))
  {
  }
}
