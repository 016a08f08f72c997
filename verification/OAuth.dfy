/**
 internal/metabase/oauth/source.go: the token, its generation, and the rotation of the refresh token
 (section 6 of RFC 6749). The mutex is held across the refresh, so that a call is one atomic step.
 */
module OAuth {
  import opened Wrappers
  import opened GoStrings
  import opened Sets

  /** refreshToken refuses a reply without an access token. */
  type AccessToken = t: Bytes | t != [] witness "t"

  /** The reply to a refresh request. The refresh token is empty when the server keeps the old one. */
  datatype Reply =
    | Refreshed(access: AccessToken, refresh: Bytes)
    | Failed                 // an error, and the server has granted nothing
    | Lost(rotated: Bytes)   // the server has granted the request, but its reply did not arrive

  /** SaveRecord may fail before or after the rename that puts the new record in place. */
  datatype Save = Saved | SaveFailed(stored: bool) {
    predicate Stored() {
      Saved? || stored
    }
  }

  datatype Record = Record(access: Bytes, refresh: Bytes)

  /** The token in memory, its generation, and the record on disk. */
  datatype State = State(access: Bytes, refresh: Bytes, gen: nat, record: Option<Record>)

  datatype Result = Ok(access: Bytes, gen: nat) | Error

  function Refresh(st: State, reply: Reply, save: Save): State {
    if st.refresh == [] || !reply.Refreshed? then st
    else
      var refresh := if reply.refresh == [] then st.refresh else reply.refresh;
      var record := Some(Record(reply.access, refresh));
      State(reply.access, refresh, st.gen + 1, if save.Stored() then record else st.record)
  }

  predicate Refreshes(st: State, reply: Reply) {
    st.refresh != [] && reply.Refreshed?
  }

  /** tok.Valid: there is an access token, and by the clock it has not expired. */
  predicate IsLive(st: State, unexpired: bool) {
    st.access != [] && unexpired
  }

  function TokenState(st: State, unexpired: bool, reply: Reply, save: Save): State {
    if IsLive(st, unexpired) then st else Refresh(st, reply, save)
  }

  function TokenResult(st: State, unexpired: bool, reply: Reply, save: Save): Result {
    if IsLive(st, unexpired) || Refreshes(st, reply)
    then var st' := TokenState(st, unexpired, reply, save); Ok(st'.access, st'.gen)
    else Error
  }

  function ForceState(st: State, gen: nat, reply: Reply, save: Save): State {
    if gen != st.gen then st else Refresh(st, reply, save)
  }

  predicate ForceSucceeds(st: State, gen: nat, reply: Reply) {
    gen != st.gen || Refreshes(st, reply)
  }

  class Manager {
    var access: Bytes
    var refresh: Bytes
    var gen: nat
    var record: Option<Record>

    function View(): State
      reads this
    {
      State(access, refresh, gen, record)
    }

    constructor (access: Bytes, refresh: Bytes, record: Option<Record>)
      ensures View() == State(access, refresh, 0, record)
    {
      this.access, this.refresh, this.gen, this.record := access, refresh, 0, record;
    }

    method Token(unexpired: bool, reply: Reply, save: Save) returns (r: Result)
      modifies this
      ensures View() == TokenState(old(View()), unexpired, reply, save)
      ensures r == TokenResult(old(View()), unexpired, reply, save)
      ensures r.Ok? <==> (old(access) != [] && unexpired) || (old(refresh) != [] && reply.Refreshed?)
      ensures r.Ok? ==> r.access == (if old(access) != [] && unexpired then old(access) else reply.access)
    {
      if access != [] && unexpired {
        return Ok(access, gen);
      }
      var ok := DoRefresh(reply, save);
      if !ok {
        return Error;
      }
      return Ok(access, gen);
    }

    method ForceRefresh(gen: nat, reply: Reply, save: Save) returns (ok: bool)
      modifies this
      ensures View() == ForceState(old(View()), gen, reply, save)
      ensures ok == ForceSucceeds(old(View()), gen, reply)
      ensures ok <==> gen != old(this.gen) || (old(refresh) != [] && reply.Refreshed?)
    {
      if gen != this.gen {
        return true;
      }
      ok := DoRefresh(reply, save);
    }

    method DoRefresh(reply: Reply, save: Save) returns (ok: bool)
      modifies this
      ensures View() == Refresh(old(View()), reply, save)
      ensures ok == Refreshes(old(View()), reply)
      ensures ok <==> old(refresh) != [] && reply.Refreshed?
      ensures ok ==> access == reply.access && gen == old(gen) + 1
      ensures ok ==> refresh == (if reply.refresh == [] then old(refresh) else reply.refresh)
      ensures record == if ok && save.Stored() then Some(Record(access, refresh)) else old(record)
      ensures !ok ==> View() == old(View())
    {
      if refresh == [] || !reply.Refreshed? {
        return false;
      }
      access := reply.access;
      if reply.refresh != [] {
        refresh := reply.refresh;
      }
      gen := gen + 1;
      if save.Stored() {
        record := Some(Record(access, refresh));
      }
      return true;
    }
  }

  // ----- whole runs, with the authorization server -----

  datatype Call =
    | TokenCall(unexpired: bool, reply: Reply, save: Save)
    | ForceCall(gen: nat, reply: Reply, save: Save)

  /** A refresh request: the token it carries, the one that the server honours then, and the outcome. */
  datatype Request = Request(carried: Bytes, honoured: Bytes, granted: bool)

  /**
   The manager, the one refresh token that the server honours, and the history: the access token that
   the server granted for each generation, the generation whose tokens were stored last (none when the
   record is still the one found at the start), the refresh tokens issued (the seed first), those of them
   that were delivered, the requests, the generations passed to ForceRefresh and those found expired by
   Token, whether a rotated token was lost on its way, and whether a rotated token has not been stored yet.
   */
  datatype World = World(
    st: State,
    honoured: Bytes,
    accesses: seq<Bytes>,
    stored: Option<nat>,
    issued: seq<Bytes>,
    delivered: seq<Bytes>,
    requests: seq<Request>,
    forced: set<nat>,
    expired: set<nat>,
    lost: bool,
    unsaved: bool)

  /** The call sends a refresh request. */
  predicate Asks(st: State, call: Call) {
    && st.refresh != []
    && match call
       case TokenCall(unexpired, _, _) => !IsLive(st, unexpired)
       case ForceCall(gen, _, _) => gen == st.gen
  }

  /** The refresh token that the server hands out with its reply, empty for none. */
  function Rotation(reply: Reply): Bytes {
    match reply
    case Refreshed(_, refresh) => refresh
    case Failed => []
    case Lost(rotated) => rotated
  }

  /** The reply hands out another refresh token than the one the server honours now. */
  predicate Rotating(w: World, reply: Reply) {
    Rotation(reply) != [] && Rotation(reply) != w.honoured
  }

  /**
   The server may fail a request for any reason, but it grants only the token it honours. With a grant
   it may hand out no refresh token, the honoured one again, or one that is new.
   */
  predicate Lawful(w: World, call: Call) {
    Asks(w.st, call) ==>
      && (w.st.refresh != w.honoured ==> call.reply.Failed?)
      && (Rotating(w, call.reply) ==> Rotation(call.reply) !in w.issued)
  }

  function Answer(st: State, call: Call): State {
    match call
    case TokenCall(unexpired, reply, save) => TokenState(st, unexpired, reply, save)
    case ForceCall(gen, reply, save) => ForceState(st, gen, reply, save)
  }

  function Step(w: World, call: Call): World {
    var st := Answer(w.st, call);
    var seen := w.(
      forced := if call.ForceCall? then w.forced + {call.gen} else w.forced,
      expired := if call.TokenCall? && !IsLive(w.st, call.unexpired) then w.expired + {w.st.gen} else w.expired);
    if !Asks(w.st, call) then seen
    else
      var r := Rotation(call.reply);
      seen.(
        st := st,
        honoured := if r == [] then w.honoured else r,
        accesses := if call.reply.Refreshed? then w.accesses + [call.reply.access] else w.accesses,
        stored := if call.reply.Refreshed? && call.save.Stored() then Some(|w.accesses|) else w.stored,
        issued := if r == [] then w.issued else w.issued + [r],
        delivered := if call.reply.Refreshed? && r != [] then w.delivered + [r] else w.delivered,
        requests := w.requests + [Request(w.st.refresh, w.honoured, call.reply.Refreshed?)],
        lost := w.lost || (call.reply.Lost? && Rotating(w, call.reply)),
        unsaved := if !call.reply.Refreshed? then w.unsaved
                   else if call.save.Stored() then false
                   else w.unsaved || Rotating(w, call.reply))
  }

  ghost predicate Run(w: World, calls: seq<Call>, w': World)
    decreases |calls|
  {
    if calls == [] then w' == w
    else Lawful(w, calls[0]) && Run(Step(w, calls[0]), calls[1..], w')
  }

  /** The server honours the seed; the record on disk may hold it, another token, or be missing. */
  function Start(access: Bytes, seed: Bytes, record: Option<Record>): World {
    World(State(access, seed, 0, record), seed, [access], None,
          [[], seed] + (if record.Some? then [record.value.refresh] else []), [], [], {}, {}, false,
          record.None? || record.value.refresh != seed)
  }

  function Last(s: seq<Bytes>): Bytes
    requires s != []
  {
    s[|s| - 1]
  }

  /** The requests that were answered with a new access token. */
  function Grants(requests: seq<Request>): nat {
    if requests == [] then 0
    else Grants(requests[..|requests| - 1]) + if requests[|requests| - 1].granted then 1 else 0
  }

  predicate Snapshots(w: World) {
    |w.accesses| == w.st.gen + 1 && w.accesses[w.st.gen] == w.st.access
  }

  /** The record is the one found at the start, or holds the access token of the generation stored last. */
  predicate Records(w: World, found: Option<Record>) {
    match w.stored
    case None => w.st.record == found
    case Some(g) => g < |w.accesses| && w.st.record.Some? && w.st.record.value.access == w.accesses[g]
  }

  predicate Accounted(w: World) {
    Grants(w.requests) == w.st.gen && forall g: nat | g < w.st.gen :: g in w.forced || g in w.expired
  }

  /** The manager holds the honoured token exactly as long as no rotated token was lost. */
  predicate Rotates(w: World, seed: Bytes) {
    && (w.st.refresh == w.honoured <==> !w.lost)
    && w.st.refresh == Last([seed] + w.delivered)
    && w.st.refresh in w.issued && w.honoured in w.issued && [] in w.issued
    && (!w.lost ==> forall i | 0 <= i < |w.requests| :: w.requests[i].carried == w.requests[i].honoured)
  }

  /** The record on disk holds the manager's refresh token, unless a rotated one is still unsaved. */
  predicate Persists(w: World) {
    && (w.st.record.Some? ==> w.st.record.value.refresh in w.issued)
    && (w.st.record.Some? && w.st.record.value.refresh == w.st.refresh <==> !w.unsaved)
    && (w.lost && w.st.record.Some? ==> w.st.record.value.refresh != w.honoured)
  }

  predicate Inv(w: World, seed: Bytes) {
    Snapshots(w) && Accounted(w) && Rotates(w, seed) && Persists(w)
  }

  lemma StepKeepsRotation(w: World, call: Call, seed: Bytes)
    requires Rotates(w, seed) && Lawful(w, call)
    ensures Rotates(Step(w, call), seed)
  {
    var w' := Step(w, call);
    if w'.delivered != w.delivered {
      assert [seed] + w'.delivered == ([seed] + w.delivered) + [Last(w'.delivered)];
    }
    if !w'.lost {
      forall i | 0 <= i < |w'.requests|
        ensures w'.requests[i].carried == w'.requests[i].honoured
      {
        assert i < |w.requests| ==> w'.requests[i] == w.requests[i];
      }
    }
  }

  lemma StepKeepsRecord(w: World, call: Call, seed: Bytes)
    requires Rotates(w, seed) && Persists(w) && Lawful(w, call)
    ensures Persists(Step(w, call))
  {
  }

  /** A call raises the generation by the requests of its own that are granted, at most one. */
  lemma StepCountsGrants(w: World, call: Call)
    ensures var w' := Step(w, call);
      && w'.st.gen - w.st.gen == Grants(w'.requests) - Grants(w.requests)
      && w.st.gen <= w'.st.gen <= w.st.gen + 1
  {
    var w' := Step(w, call);
    if w'.requests != w.requests {
      assert w'.requests[..|w'.requests| - 1] == w.requests;
    }
  }

  lemma {:induction false} RunKeepsInv(w: World, calls: seq<Call>, w': World, seed: Bytes)
    requires Inv(w, seed) && Run(w, calls, w')
    ensures Inv(w', seed) && w'.st.gen >= w.st.gen
    decreases |calls|
  {
    if calls != [] {
      StepKeepsRotation(w, calls[0], seed);
      StepKeepsRecord(w, calls[0], seed);
      StepCountsGrants(w, calls[0]);
      assert Snapshots(Step(w, calls[0])) && Accounted(Step(w, calls[0]));
      hide Rotates, Persists, Lawful;
      RunKeepsInv(Step(w, calls[0]), calls[1..], w', seed);
    }
  }

  /**
   Rotation: the manager holds the last refresh token delivered to it, or the seed, and that is the one
   the server honours exactly when no rotated token was lost on its way. Until then every request
   carries the honoured token.
   */
  lemma RotationKeepsTheToken(access: Bytes, seed: Bytes, record: Option<Record>, calls: seq<Call>, w: World)
    requires Run(Start(access, seed, record), calls, w)
    ensures w.st.refresh == Last([seed] + w.delivered)
    ensures w.st.refresh == w.honoured <==> !w.lost
    ensures !w.lost ==> forall i | 0 <= i < |w.requests| :: w.requests[i].carried == w.requests[i].honoured
  {
    StartIsFine(access, seed, record);
    RunKeepsInv(Start(access, seed, record), calls, w, seed);
  }

  lemma StartIsFine(access: Bytes, seed: Bytes, record: Option<Record>)
    ensures Inv(Start(access, seed, record), seed)
  {
  }

  /** A restart from the record gets a token that the server honours, unless one was lost or is unsaved. */
  lemma RestartWorksIff(access: Bytes, seed: Bytes, record: Option<Record>, calls: seq<Call>, w: World)
    requires Run(Start(access, seed, record), calls, w)
    ensures w.st.record.Some? && w.st.record.value.refresh == w.honoured <==> !w.lost && !w.unsaved
  {
    StartIsFine(access, seed, record);
    RunKeepsInv(Start(access, seed, record), calls, w, seed);
  }

  /** A lost token is lost for good: every later request carries another token, and nothing changes. */
  lemma {:induction false} LossIsFinal(w: World, calls: seq<Call>, w': World, seed: Bytes)
    requires Inv(w, seed) && w.lost && Run(w, calls, w')
    ensures w'.lost && w'.st == w.st
    ensures w.requests <= w'.requests
    ensures forall i | |w.requests| <= i < |w'.requests| ::
              w'.requests[i].carried != w'.requests[i].honoured && !w'.requests[i].granted
    decreases |calls|
  {
    if calls != [] {
      RunKeepsInv(w, [calls[0]], Step(w, calls[0]), seed);
      LossIsFinal(Step(w, calls[0]), calls[1..], w', seed);
    }
  }

  /**
   Each successful refresh raises the generation, and each generation passed was forced or had expired:
   callers that all hold the same generation cause one refresh.
   */
  lemma RefreshesAreBounded(access: Bytes, seed: Bytes, record: Option<Record>, calls: seq<Call>, w: World)
    requires Run(Start(access, seed, record), calls, w)
    ensures Grants(w.requests) == w.st.gen <= |w.forced + w.expired|
    ensures w.expired == {} ==> Grants(w.requests) <= |w.forced|
  {
    StartIsFine(access, seed, record);
    RunKeepsInv(Start(access, seed, record), calls, w, seed);
    HoldsRange(0, w.st.gen, w.forced + w.expired);
    assert w.expired == {} ==> w.forced + w.expired == w.forced;
  }

  /** Callers that all hold the generation g, and meet no expired token, cause one refresh between them. */
  lemma {:induction false} OneRefreshPerGeneration(w: World, calls: seq<Call>, w': World, g: nat)
    requires Run(w, calls, w')
    requires forall c | c in calls :: match c
      case TokenCall(unexpired, _, _) => unexpired
      case ForceCall(gen, _, _) => gen == g
    requires g <= w.st.gen <= g + 1 && w.st.access != []
    ensures Grants(w'.requests) - Grants(w.requests) == w'.st.gen - w.st.gen
    ensures g <= w'.st.gen <= g + 1
    decreases |calls|
  {
    if calls != [] {
      assert calls[0] in calls && forall c | c in calls[1..] :: c in calls;
      StepCountsGrants(w, calls[0]);
      hide Lawful, Grants;
      OneRefreshPerGeneration(Step(w, calls[0]), calls[1..], w', g);
    }
  }

  // ----- what a run may contain -----

  /**
   What the server may do with a forced refresh, in any state a run can reach: fail, whatever happened
   before; and, as long as nothing was lost, keep the refresh token, repeat it, or hand out a new one,
   which may get lost. Nothing else is granted.
   */
  lemma LawfulReplies(w: World, seed: Bytes, access: AccessToken, r: Bytes, save: Save)
    requires Inv(w, seed) && w.st.refresh != []
    ensures forall reply :: Asks(w.st, ForceCall(w.st.gen, reply, save))
    ensures Lawful(w, ForceCall(w.st.gen, Failed, save))
    ensures Lawful(w, ForceCall(w.st.gen, Refreshed(access, r), save))
      <==> !w.lost && (r == [] || r == w.honoured || r !in w.issued)
    ensures Lawful(w, ForceCall(w.st.gen, Lost(r), save))
      <==> !w.lost && (r == [] || r == w.honoured || r !in w.issued)
  {
  }

  /**
   From any seed there is a run that meets every kind of reply: a refresh that keeps the refresh token, a
   failed one, one that rotates to s without being saved, one that loses t, and a request behind it.
   */
  lemma RunWithEveryReply(access: AccessToken, seed: Bytes, s: Bytes, t: Bytes, save: Save)
    requires seed != [] && s != [] && t != [] && seed != s && s != t && t != seed
    ensures var calls := EveryReply(access, s, t, save);
      exists w :: Run(Start(access, seed, None), calls, w)
        && w.lost && w.unsaved && w.st.gen == 2 && |w.requests| == 5
        && w.st.refresh == s && w.honoured == t
  {
    var calls := EveryReply(access, s, t, save);
    var w0 := Start(access, seed, None);
    var w1, w2 := Step(w0, calls[0]), Step(Step(w0, calls[0]), calls[1]);
    var w3 := Step(w2, calls[2]);
    var w4 := Step(w3, calls[3]);
    assert w2.issued == [[], seed] && w2.honoured == seed == w2.st.refresh && w2.st.gen == 1;
    assert w3.issued == [[], seed, s] && w3.honoured == s == w3.st.refresh && w3.st.gen == 2;
    FiveSteps(w0, calls, w1, w2, w3, w4, Step(w4, calls[4]));
  }

  function EveryReply(access: AccessToken, s: Bytes, t: Bytes, save: Save): (calls: seq<Call>)
    ensures |calls| == 5
  {
    [ForceCall(0, Refreshed(access, []), save), TokenCall(false, Failed, save),
     ForceCall(1, Refreshed(access, s), SaveFailed(false)), ForceCall(2, Lost(t), save), ForceCall(2, Failed, save)]
  }

  lemma FiveSteps(w0: World, calls: seq<Call>, w1: World, w2: World, w3: World, w4: World, w5: World)
    requires |calls| == 5
    requires Lawful(w0, calls[0]) && w1 == Step(w0, calls[0])
    requires Lawful(w1, calls[1]) && w2 == Step(w1, calls[1])
    requires Lawful(w2, calls[2]) && w3 == Step(w2, calls[2])
    requires Lawful(w3, calls[3]) && w4 == Step(w3, calls[3])
    requires Lawful(w4, calls[4]) && w5 == Step(w4, calls[4])
    ensures Run(w0, calls, w5)
  {
    hide Lawful, Step;
    assert calls[4..][1..] == [] && Run(w4, calls[4..], w5);
    assert calls[3..][1..] == calls[4..] && Run(w3, calls[3..], w5);
    assert calls[2..][1..] == calls[3..] && Run(w2, calls[2..], w5);
    assert calls[1..][1..] == calls[2..] && Run(w1, calls[1..], w5);
  }

  lemma StepKeepsTokens(w: World, call: Call, found: Option<Record>)
    requires Snapshots(w) && Records(w, found)
    ensures Snapshots(Step(w, call)) && Records(Step(w, call), found)
  {
  }

  lemma {:induction false} RunKeepsTokens(w: World, calls: seq<Call>, w': World, found: Option<Record>)
    requires Snapshots(w) && Records(w, found) && Run(w, calls, w')
    ensures Snapshots(w') && Records(w', found)
    decreases |calls|
  {
    if calls != [] {
      StepKeepsTokens(w, calls[0], found);
      hide Step, Lawful, Snapshots, Records;
      RunKeepsTokens(Step(w, calls[0]), calls[1..], w', found);
    }
  }

  /**
   After any run the manager holds the access token of the last grant, or the seed; the record on disk is
   the one found at the start as long as no save got through, and then that of the last one that did.
   */
  lemma AccessIsTheLastGranted(access: Bytes, seed: Bytes, record: Option<Record>, calls: seq<Call>, w: World)
    requires Run(Start(access, seed, record), calls, w)
    ensures |w.accesses| == w.st.gen + 1 == Grants(w.requests) + 1 && w.st.access == Last(w.accesses)
    ensures w.stored == None ==> w.st.record == record
    ensures w.stored != None ==>
      w.stored.value < |w.accesses| && w.st.record.Some? && w.st.record.value.access == w.accesses[w.stored.value]
  {
    StartIsFine(access, seed, record);
    RunKeepsInv(Start(access, seed, record), calls, w, seed);
    RunKeepsTokens(Start(access, seed, record), calls, w, record);
  }

  /**
   Token succeeds exactly with a live token or a granted refresh, and then returns the token that the
   server granted for the generation it returns.
   */
  lemma SnapshotIsConsistent(access: Bytes, seed: Bytes, record: Option<Record>, calls: seq<Call>, w: World, call: Call)
    requires Run(Start(access, seed, record), calls, w) && Lawful(w, call) && call.TokenCall?
    ensures var w', r := Step(w, call), TokenResult(w.st, call.unexpired, call.reply, call.save);
      && (r.Ok? <==> (w.st.access != [] && call.unexpired) || (w.st.refresh != [] && call.reply.Refreshed?))
      && (r.Ok? ==> r.gen == w'.st.gen < |w'.accesses| && r.access == w'.accesses[r.gen])
  {
    StartIsFine(access, seed, record);
    RunKeepsInv(Start(access, seed, record), calls, w, seed);
  }
}
