/** What holds of the spool directory in every interleaving of Put, ReadAll, Sweep and Close. */
module SpoolRuns {
  import opened GoStrings
  import opened SpoolIndex
  import opened SpoolFiles

  /** The steps lead from s to s'. */
  ghost predicate Path(cfg: Config, s: System, steps: seq<Step>, s': System)
    decreases |steps|
  {
    if steps == [] then s' == s
    else Enabled(s, steps[0]) && Path(cfg, Next(cfg, s, steps[0]), steps[1..], s')
  }

  ghost predicate Reachable(cfg: Config, s: System) {
    exists steps :: Path(cfg, INITIAL, steps, s)
  }

  lemma {:induction false} PathKeepsInv(cfg: Config, s: System, steps: seq<Step>, s': System)
    requires Inv(s) && Path(cfg, s, steps, s')
    ensures Inv(s')
    decreases |steps|
  {
    hide Inv, Enabled, Next;
    if steps != [] {
      StepKeepsInv(cfg, s, steps[0]);
      PathKeepsInv(cfg, Next(cfg, s, steps[0]), steps[1..], s');
    }
  }

  lemma ReachableInv(cfg: Config, s: System)
    requires Reachable(cfg, s)
    ensures Inv(s)
  {
    var steps :| Path(cfg, INITIAL, steps, s);
    PathKeepsInv(cfg, INITIAL, steps, s);
  }

  // ----- conservation of files -----

  /**
   Each file has one party responsible for it: the index, one goroutine, or the failed removals. Each .tmp
   file belongs to one writing Put, or it was left by a failed write or rename.
   */
  lemma FilesAreConserved(cfg: Config, s: System)
    requires Reachable(cfg, s)
    ensures forall id :: id in s.files <==> id in s.ix.entries || id in s.stuck || HeldBySome(s, id)
    ensures s.ix.entries.Keys !! s.stuck
    ensures forall t | t in s.threads :: Held(s.threads[t]) !! s.ix.entries.Keys && Held(s.threads[t]) !! s.stuck
    ensures forall t, u | t in s.threads && u in s.threads && t != u :: Held(s.threads[t]) !! Held(s.threads[u])
    ensures Valid(s.ix)
    ensures forall id :: id in s.temps <==> id in s.litter || WrittenBySome(s, id)
    ensures forall id | WrittenBySome(s, id) :: id !in s.litter
    ensures forall t, u | t in s.threads && u in s.threads && s.threads[t].Writing? && s.threads[u].Writing? ::
              s.threads[t].id == s.threads[u].id ==> t == u
  {
    ReachableInv(cfg, s);
    hide Valid, Faithful;
    forall t | t in s.threads
      ensures Held(s.threads[t]) <= Owned(s.threads[t])
      ensures s.threads[t].Writing? ==> s.threads[t].id in Owned(s.threads[t])
    {
    }
  }

  /** Once every call has returned and no removal has failed, the directory holds what the index lists. */
  lemma DirectoryMatchesIndex(cfg: Config, s: System)
    requires Reachable(cfg, s)
    requires s.threads == map[] && s.stuck == {}
    ensures s.files.Keys == s.ix.entries.Keys
    ensures forall id | id in s.files :: |s.files[id]| == s.ix.entries[id].bytes
    ensures s.temps == s.litter
  {
    ReachableInv(cfg, s);
    assert forall id :: !HeldBySome(s, id) && !WrittenBySome(s, id);
  }

  /** A sweep leaves no more than maxBytes in the index, or a single entry. */
  lemma LimitAfterSweep(cfg: Config, s: System, t: Thread, clock: Clock)
    requires Reachable(cfg, s) && Enabled(s, Step.Sweep(t, clock))
    ensures var ix := Next(cfg, s, Step.Sweep(t, clock)).ix;
      ix.total == Sum(ix.entries, ix.order) && (ix.total <= cfg.maxBytes || |ix.entries| <= 1)
  {
    ReachableInv(cfg, s);
    SweepMeetsLimit(s.ix, clock, cfg.maxBytes);
    SweepKeepsValid(s.ix, clock, cfg.maxBytes);
  }

  // ----- ReadAll -----

  lemma {:induction false} DrawnIsForGood(cfg: Config, s: System, steps: seq<Step>, s': System, id: Id)
    requires Path(cfg, s, steps, s') && id in s.drawn
    ensures id in s'.drawn && s'.drawn[id] == s.drawn[id]
    decreases |steps|
  {
    if steps != [] {
      DrawnIsForGood(cfg, Next(cfg, s, steps[0]), steps[1..], s', id);
    }
  }

  /** Whatever runs in between, a ReadAll that succeeds returns the bytes that Put was given under the id. */
  lemma ReadAllReturnsWhatWasPut(cfg: Config, s: System, put: Step, steps: seq<Step>, s': System,
                                 t: Thread, data: Bytes)
    requires Reachable(cfg, s) && put.Admit? && Enabled(s, put)
    requires Path(cfg, Next(cfg, s, put), steps, s')
    requires t in s'.threads && s'.threads[t].Reading? && s'.threads[t].e.id == put.id
    requires ReadsData(s', s'.threads[t].e, data)
    ensures data == put.data && |data| == s'.threads[t].e.bytes
  {
    ReachableInv(cfg, s);
    StepKeepsInv(cfg, s, put);
    PathKeepsInv(cfg, Next(cfg, s, put), steps, s');
    DrawnIsForGood(cfg, Next(cfg, s, put), steps, s', put.id);
  }

  /** Every entry expires ttl after the reading of the clock at its registration. */
  ghost predicate Expiring(cfg: Config, ix: Index) {
    forall id | id in ix.entries :: ix.entries[id].expiresAt == ix.entries[id].createdAt + cfg.ttl
  }

  lemma StepKeepsExpiring(cfg: Config, s: System, step: Step)
    requires Inv(s) && Expiring(cfg, s.ix) && Enabled(s, step)
    ensures Expiring(cfg, Next(cfg, s, step).ix)
  {
    InvIsValid(s);
    IndexAfter(cfg, s, step);
    hide Inv, Valid, SpoolIndex.Sweep, Next, Enabled;
    if step.Sweep? {
      SweepShrinks(s.ix, step.clock, cfg.maxBytes);
    }
  }

  /** Which steps change the index, and to what. */
  lemma IndexAfter(cfg: Config, s: System, step: Step)
    requires Enabled(s, step)
    ensures var ix := Next(cfg, s, step).ix;
      match step
      case Register(t, rowCount, now) =>
        ix == SpoolIndex.Register(s.ix, NewEntry(cfg, s.threads[t].id, s.threads[t].data, rowCount, now))
      case Sweep(_, clock) => ix == SpoolIndex.Sweep(s.ix, clock, cfg.maxBytes)
      case Close(_) => ix == s.ix || ix == SpoolIndex.Close(s.ix)
      case _ => ix == s.ix
  {
    hide SpoolIndex.Sweep, SpoolIndex.Register, SpoolIndex.Close;
  }

  lemma {:induction false} PathKeepsExpiring(cfg: Config, s: System, steps: seq<Step>, s': System)
    requires Inv(s) && Expiring(cfg, s.ix) && Path(cfg, s, steps, s')
    ensures Expiring(cfg, s'.ix)
    decreases |steps|
  {
    hide Inv, Enabled, Next, Expiring;
    if steps != [] {
      StepKeepsInv(cfg, s, steps[0]);
      StepKeepsExpiring(cfg, s, steps[0]);
      PathKeepsExpiring(cfg, Next(cfg, s, steps[0]), steps[1..], s');
    }
  }

  /** In every interleaving an entry can be read exactly as long as ttl has not passed since its registration. */
  lemma ReadableUntilTtl(cfg: Config, s: System, t: Thread, id: Id, now: int)
    requires Reachable(cfg, s) && t !in s.threads && id in s.ix.entries
    ensures Enabled(s, Find(t, id, now)) <==> now <= s.ix.entries[id].createdAt + cfg.ttl
  {
    var steps :| Path(cfg, INITIAL, steps, s);
    PathKeepsExpiring(cfg, INITIAL, steps, s);
    hide Path, Reachable;
  }

  // ----- Close -----

  predicate InFlight(pc: Pc) {
    pc.Admitted? || pc.Writing? || pc.InPlace?
  }

  /** The Put with this id has passed its check of `closed` and has not registered its entry. */
  ghost predicate PutInFlight(s: System, id: Id) {
    exists t :: t in s.threads && InFlight(s.threads[t]) && s.threads[t].id == id
  }

  /** Nobody will bring the file under this id into the index of the closed store any more. */
  ghost predicate Settled(s: System, id: Id) {
    s.ix.closed && id !in s.ix.entries && !PutInFlight(s, id)
  }

  lemma ClosedStaysClosed(cfg: Config, s: System, step: Step)
    requires Enabled(s, step) && s.ix.closed
    ensures Next(cfg, s, step).ix.closed
  {
  }

  lemma NoPutTakesOff(cfg: Config, s: System, step: Step, id: Id)
    requires Enabled(s, step) && s.ix.closed && !PutInFlight(s, id)
    ensures !PutInFlight(Next(cfg, s, step), id)
  {
    hide SpoolIndex.Sweep, SpoolIndex.Register, SpoolIndex.Close;
    var s' := Next(cfg, s, step);
    forall t | t in s'.threads && InFlight(s'.threads[t])
      ensures s'.threads[t].id != id
    {
      assert t in s.threads && InFlight(s.threads[t]) && s.threads[t].id == s'.threads[t].id;
    }
  }

  lemma NotRegistered(cfg: Config, s: System, step: Step, id: Id)
    requires Inv(s) && Settled(s, id) && Enabled(s, step)
    ensures id !in Next(cfg, s, step).ix.entries
  {
    if step.Sweep? {
      SweepShrinks(s.ix, step.clock, cfg.maxBytes);
      hide Inv, Valid, SpoolIndex.Sweep;
    } else {
      hide Inv;
    }
  }

  lemma {:induction false} PathKeepsSettled(cfg: Config, s: System, steps: seq<Step>, s': System, id: Id)
    requires Inv(s) && Settled(s, id) && Path(cfg, s, steps, s')
    ensures Settled(s', id)
    decreases |steps|
  {
    if steps != [] {
      NotRegistered(cfg, s, steps[0], id);
      ClosedStaysClosed(cfg, s, steps[0]);
      NoPutTakesOff(cfg, s, steps[0], id);
      StepKeepsInv(cfg, s, steps[0]);
      hide Inv, Enabled, Next, PutInFlight;
      PathKeepsSettled(cfg, Next(cfg, s, steps[0]), steps[1..], s', id);
    }
  }

  lemma CloseSettles(cfg: Config, s: System, t: Thread, id: Id)
    requires !s.ix.closed && t !in s.threads && !PutInFlight(s, id)
    ensures Settled(Next(cfg, s, Step.Close(t)), id)
  {
    var s1 := Next(cfg, s, Step.Close(t));
    forall u | u in s1.threads && InFlight(s1.threads[u])
      ensures s1.threads[u].id != id
    {
      assert u != t && u in s.threads && s1.threads[u] == s.threads[u];
    }
  }

  /**
   Once every call has returned, Close has left no file but those of Puts in flight and failed removals, and
   no .tmp file but those of failed writes and renames.
   */
  lemma OnlyPutsInFlightLeaveFiles(cfg: Config, s: System, t: Thread, steps: seq<Step>, s': System, id: Id)
    requires Reachable(cfg, s) && !s.ix.closed && t !in s.threads
    requires Path(cfg, Next(cfg, s, Step.Close(t)), steps, s') && s'.threads == map[]
    ensures id in s'.files && id !in s'.stuck ==> PutInFlight(s, id)
    ensures id in s'.temps <==> id in s'.litter
  {
    ReachableInv(cfg, s);
    StepKeepsInv(cfg, s, Step.Close(t));
    PathKeepsInv(cfg, Next(cfg, s, Step.Close(t)), steps, s');
    assert !WrittenBySome(s', id) && !HeldBySome(s', id);
    if !PutInFlight(s, id) {
      CloseSettles(cfg, s, t, id);
      PathKeepsSettled(cfg, Next(cfg, s, Step.Close(t)), steps, s', id);
    }
  }

  /**
   Closed with no Put in flight, the directory holds, once every call has returned, the files that could not
   be removed and the .tmp files of failed writes and renames. It is empty exactly when there are none.
   */
  lemma CloseEmptiesTheDirectory(cfg: Config, s: System, t: Thread, steps: seq<Step>, s': System)
    requires Reachable(cfg, s) && !s.ix.closed && t !in s.threads && forall id :: !PutInFlight(s, id)
    requires Path(cfg, Next(cfg, s, Step.Close(t)), steps, s') && s'.threads == map[]
    ensures s'.files.Keys == s'.stuck && s'.temps == s'.litter
    ensures s'.files == map[] && s'.temps == {} <==> s'.stuck == {} && s'.litter == {}
  {
    ReachableInv(cfg, s);
    StepKeepsInv(cfg, s, Step.Close(t));
    PathKeepsInv(cfg, Next(cfg, s, Step.Close(t)), steps, s');
    assert s'.stuck <= s'.files.Keys;
    hide Inv, Next, Path, Reachable, PutInFlight;
    forall id
      ensures id in s'.files ==> id in s'.stuck
      ensures id in s'.temps <==> id in s'.litter
    {
      OnlyPutsInFlightLeaveFiles(cfg, s, t, steps, s', id);
    }
    assert s'.files == map[] <==> s'.files.Keys == {};
  }

  // ----- letting every goroutine return -----

  /** No file operation fails in these steps. */
  predicate AllSucceed(steps: seq<Step>) {
    forall i | 0 <= i < |steps| ::
      !steps[i].FailWrite? && !steps[i].FailRename? && (steps[i].Remove? ==> steps[i].gone)
  }

  ghost predicate Leads(cfg: Config, s: System, steps: seq<Step>, s': System) {
    Path(cfg, s, steps, s') && AllSucceed(steps)
  }

  lemma {:induction false} PathAppend(cfg: Config, s: System, a: seq<Step>, s1: System, b: seq<Step>, s2: System)
    requires Path(cfg, s, a, s1) && Path(cfg, s1, b, s2)
    ensures Path(cfg, s, a + b, s2)
    decreases |a|
  {
    hide Enabled, Next;
    if a == [] {
      assert a + b == b;
    } else {
      PathAppend(cfg, Next(cfg, s, a[0]), a[1..], s1, b, s2);
      assert (a + b)[0] == a[0] && (a + b)[1..] == a[1..] + b;
    }
  }

  lemma LeadsIsPath(cfg: Config, s: System, steps: seq<Step>, s': System)
    requires Leads(cfg, s, steps, s')
    ensures Path(cfg, s, steps, s')
  {
  }

  lemma LeadsAppend(cfg: Config, s: System, a: seq<Step>, s1: System, b: seq<Step>, s2: System)
    requires Leads(cfg, s, a, s1) && Leads(cfg, s1, b, s2)
    ensures Leads(cfg, s, a + b, s2)
  {
    hide Path;
    PathAppend(cfg, s, a, s1, b, s2);
  }

  lemma LeadsKeepsInv(cfg: Config, s: System, steps: seq<Step>, s': System)
    requires Inv(s) && Leads(cfg, s, steps, s')
    ensures Inv(s')
  {
    hide Inv, Path;
    PathKeepsInv(cfg, s, steps, s');
  }

  lemma SingleStep(cfg: Config, s: System, step: Step)
    requires Enabled(s, step)
    ensures Path(cfg, s, [step], Next(cfg, s, step))
  {
    hide Enabled, Next;
    assert [step][1..] == [];
    assert Path(cfg, Next(cfg, s, step), [], Next(cfg, s, step));
  }

  lemma OneStep(cfg: Config, s: System, step: Step)
    requires Enabled(s, step) && AllSucceed([step])
    ensures Leads(cfg, s, [step], Next(cfg, s, step))
  {
    hide Enabled, Next;
    SingleStep(cfg, s, step);
  }

  lemma NoStep(cfg: Config, s: System)
    ensures Leads(cfg, s, [], s)
  {
  }

  /** A goroutine removes the files it has dropped and returns. */
  lemma {:induction false} FinishDrop(cfg: Config, s: System, t: Thread) returns (steps: seq<Step>, s': System)
    requires t in s.threads && s.threads[t].Dropping?
    ensures Leads(cfg, s, steps, s')
    ensures s' == s.(threads := s.threads - {t}, files := s.files - s.threads[t].ids)
    decreases |s.threads[t].ids|
  {
    var ids := s.threads[t].ids;
    if ids == {} {
      OneStep(cfg, s, EndDrop(t));
      steps, s' := [EndDrop(t)], Leave(s, t);
      assert s.files - ids == s.files;
    } else {
      var id :| id in ids;
      var step := Remove(t, id, true);
      OneStep(cfg, s, step);
      var s1, rest := Next(cfg, s, step), [];
      assert s1 == s.(threads := s.threads[t := Dropping(ids - {id})], files := s.files - {id});
      rest, s' := FinishDrop(cfg, s1, t);
      assert s1.files - (ids - {id}) == s.files - ids;
      assert s1.threads - {t} == s.threads - {t};
      LeadsAppend(cfg, s, [step], s1, rest, s');
      steps := [step] + rest;
    }
  }

  /** A goroutine that has registered its entry sweeps, and returns. */
  lemma FinishListed(cfg: Config, s: System, t: Thread, clock: Clock) returns (steps: seq<Step>, s': System)
    requires t in s.threads && s.threads[t] == Listed
    ensures Leads(cfg, s, steps, s')
    ensures s'.threads == s.threads - {t}
    ensures s'.ix == SpoolIndex.Sweep(s.ix, clock, cfg.maxBytes)
    ensures s'.files == s.files - (s.ix.entries.Keys - s'.ix.entries.Keys)
  {
    hide SpoolIndex.Sweep;
    var step := Step.Sweep(t, clock);
    var s1, rest := Next(cfg, s, step), [];
    OneStep(cfg, s, step);
    rest, s' := FinishDrop(cfg, s1, t);
    assert s1.threads - {t} == s.threads - {t};
    LeadsAppend(cfg, s, [step], s1, rest, s');
    steps := [step] + rest;
  }

  /** The file of a Put in flight comes to its final name. */
  lemma FinishWriting(cfg: Config, s: System, t: Thread) returns (steps: seq<Step>, s': System)
    requires t in s.threads && InFlight(s.threads[t])
    ensures Leads(cfg, s, steps, s')
    ensures s'.threads == s.threads[t := InPlace(s.threads[t].id, s.threads[t].data)]
    ensures s'.ix == s.ix
    decreases if s.threads[t].Admitted? then 2 else if s.threads[t].Writing? then 1 else 0
  {
    if s.threads[t].InPlace? {
      steps, s' := [], s;
      assert s.threads[t := s.threads[t]] == s.threads;
    } else {
      var step := if s.threads[t].Admitted? then Write(t) else Rename(t);
      OneStep(cfg, s, step);
      var rest;
      rest, s' := FinishWriting(cfg, Next(cfg, s, step), t);
      LeadsAppend(cfg, s, [step], Next(cfg, s, step), rest, s');
      steps := [step] + rest;
    }
  }

  /** A Put registers its entry. */
  lemma RegisterStep(cfg: Config, s: System, t: Thread)
    requires Inv(s) && t in s.threads && s.threads[t].InPlace?
    ensures var id := s.threads[t].id;
      var e, s' := NewEntry(cfg, id, s.threads[t].data, 0, 0), Next(cfg, s, Step.Register(t, 0, 0));
      && Leads(cfg, s, [Step.Register(t, 0, 0)], s')
      && s' == s.(threads := s.threads[t := Listed], ix := SpoolIndex.Register(s.ix, e))
      && id !in s.ix.entries && id in s'.ix.entries && id in s.files
  {
    hide Valid, Faithful, Temporary, Leads;
    assert s.threads[t].id in Held(s.threads[t]) && s.threads[t].id in Owned(s.threads[t]);
    OneStep(cfg, s, Step.Register(t, 0, 0));
  }

  lemma LastEntryStays(ix: Index, e: Entry, clock: Clock, maxBytes: int)
    requires Valid(ix) && ix.closed && e.id !in ix.entries && !Expired(e, clock(|ix.order|))
    ensures var r := SpoolIndex.Sweep(SpoolIndex.Register(ix, e), clock, maxBytes);
      r.closed && e.id in r.entries
  {
    hide Valid;
    OwnEntrySurvives(ix, e, clock, maxBytes);
  }

  /** The entry registered last is still in the index, with its file, when its goroutine has returned. */
  lemma FinishRegistered(cfg: Config, s: System, t: Thread, ix: Index, e: Entry, clock: Clock)
    returns (steps: seq<Step>, s': System)
    requires t in s.threads && s.threads[t] == Listed
    requires Valid(ix) && ix.closed && e.id !in ix.entries && !Expired(e, clock(|ix.order|))
    requires s.ix == SpoolIndex.Register(ix, e) && e.id in s.files
    ensures Leads(cfg, s, steps, s')
    ensures s'.threads == s.threads - {t} && s'.ix.closed
    ensures e.id in s'.ix.entries && e.id in s'.files
  {
    LastEntryStays(ix, e, clock, cfg.maxBytes);
    hide SpoolIndex.Register, SpoolIndex.Sweep, Valid, Leads;
    steps, s' := FinishListed(cfg, s, t, clock);
    assert e.id !in s.ix.entries.Keys - s'.ix.entries.Keys;
  }

  /** A Put whose file is in place returns, and its entry is in the index with its file. */
  lemma FinishInPlace(cfg: Config, s: System, t: Thread) returns (steps: seq<Step>, s': System)
    requires Inv(s) && s.ix.closed && t in s.threads && s.threads[t].InPlace?
    ensures Leads(cfg, s, steps, s')
    ensures s'.threads == s.threads - {t} && s'.ix.closed
    ensures s.threads[t].id in s'.ix.entries && s.threads[t].id in s'.files
  {
    hide SpoolIndex.Register, Valid, Exclusive, Covered, Faithful, Temporary, Leads, Next;
    var register := Step.Register(t, 0, 0);
    var e := NewEntry(cfg, s.threads[t].id, s.threads[t].data, 0, 0);
    RegisterStep(cfg, s, t);
    var s1, rest := Next(cfg, s, register), [];
    rest, s' := FinishRegistered(cfg, s1, t, s.ix, e, _ => cfg.ttl);
    LeadsAppend(cfg, s, [register], s1, rest, s');
    assert s1.threads - {t} == s.threads - {t};
    steps := [register] + rest;
  }

  /** A Put in flight returns, and its entry is in the index with its file. */
  lemma FinishPut(cfg: Config, s: System, t: Thread) returns (steps: seq<Step>, s': System)
    requires Inv(s) && s.ix.closed && t in s.threads && InFlight(s.threads[t])
    ensures Leads(cfg, s, steps, s')
    ensures s'.threads == s.threads - {t} && s'.ix.closed
    ensures s.threads[t].id in s'.ix.entries && s.threads[t].id in s'.files
  {
    hide Leads, Inv;
    var a, s1 := FinishWriting(cfg, s, t);
    LeadsKeepsInv(cfg, s, a, s1);
    var b;
    b, s' := FinishInPlace(cfg, s1, t);
    LeadsAppend(cfg, s, a, s1, b, s');
    assert s1.threads - {t} == s.threads - {t};
    steps := a + b;
  }

  /** Any goroutine inside a call can return while the others stand still. */
  lemma FinishCall(cfg: Config, s: System, t: Thread) returns (steps: seq<Step>, s': System)
    requires Inv(s) && s.ix.closed && t in s.threads
    ensures Leads(cfg, s, steps, s')
    ensures s'.threads == s.threads - {t} && s'.ix.closed
  {
    match s.threads[t]
    case Listed => steps, s' := FinishListed(cfg, s, t, _ => 0);
    case Dropping(_) => steps, s' := FinishDrop(cfg, s, t);
    case Reading(_) =>
      OneStep(cfg, s, Read(t));
      steps, s' := [Read(t)], Leave(s, t);
    case _ => steps, s' := FinishPut(cfg, s, t);
  }

  /** All goroutines but one return. */
  lemma {:induction false} FinishOthers(cfg: Config, s: System, u: Thread) returns (steps: seq<Step>, s': System)
    requires Inv(s) && s.ix.closed && u in s.threads
    ensures Leads(cfg, s, steps, s')
    ensures s'.threads == map[u := s.threads[u]] && s'.ix.closed
    decreases s.threads.Keys
  {
    hide Inv, Leads;
    if t :| t in s.threads && t != u {
      var a, s1 := FinishCall(cfg, s, t);
      LeadsKeepsInv(cfg, s, a, s1);
      var b;
      b, s' := FinishOthers(cfg, s1, u);
      LeadsAppend(cfg, s, a, s1, b, s');
      steps := a + b;
    } else {
      steps, s' := [], s;
      NoStep(cfg, s);
      assert s.threads.Keys == {u};
    }
  }

  // ----- the file of a Put that was in flight -----

  /** From s on, with no operation failing, every call can return with the file under this id left behind. */
  ghost predicate CanStay(cfg: Config, s: System, id: Id) {
    exists steps, s' ::
      && Leads(cfg, s, steps, s')
      && s'.threads == map[]
      && s'.ix.closed && id in s'.ix.entries && id in s'.files && id !in s'.stuck
  }

  /**
   Close settles exactly the files of which no Put is between its check of `closed` and its registration:
   every other Put can return after Close, and its file stays when all calls have returned.
   */
  lemma CloseIsFinalIff(cfg: Config, s: System, t: Thread, id: Id)
    requires Reachable(cfg, s) && !s.ix.closed && t !in s.threads
    ensures CanStay(cfg, Next(cfg, s, Step.Close(t)), id) <==> PutInFlight(s, id)
  {
    hide Reachable, Inv, Leads;
    var s1 := Next(cfg, s, Step.Close(t));
    if PutInFlight(s, id) {
      ReachableInv(cfg, s);
      StepKeepsInv(cfg, s, Step.Close(t));
      var u :| u in s.threads && InFlight(s.threads[u]) && s.threads[u].id == id;
      assert s1.threads[u] == s.threads[u];
      PutCanStay(cfg, s1, u);
    } else if CanStay(cfg, s1, id) {
      var steps, s' :| Leads(cfg, s1, steps, s') && s'.threads == map[] && id in s'.files && id !in s'.stuck;
      LeadsIsPath(cfg, s1, steps, s');
      OnlyPutsInFlightLeaveFiles(cfg, s, t, steps, s', id);
    }
  }

  lemma EntriesAreNotStuck(s: System)
    requires Inv(s)
    ensures s.ix.entries.Keys !! s.stuck
  {
  }

  lemma PutCanStay(cfg: Config, s: System, u: Thread)
    requires Inv(s) && s.ix.closed && u in s.threads && InFlight(s.threads[u])
    ensures CanStay(cfg, s, s.threads[u].id)
  {
    hide Valid, Exclusive, Covered, Faithful, Temporary, Leads;
    var id := s.threads[u].id;
    var a, s1 := FinishOthers(cfg, s, u);
    LeadsKeepsInv(cfg, s, a, s1);
    var b, s2 := FinishPut(cfg, s1, u);
    LeadsKeepsInv(cfg, s1, b, s2);
    LeadsAppend(cfg, s, a, s1, b, s2);
    assert id !in s2.stuck by {
      EntriesAreNotStuck(s2);
    }
    assert Leads(cfg, s, a + b, s2) && s2.threads == map[];
  }

  /** Such a Put exists: a first goroutine draws its id, and a second one closes the store. */
  lemma PutCanOutliveClose(cfg: Config, id: Id, data: Bytes)
    ensures var s := Next(cfg, INITIAL, Admit(0, id, data));
      Reachable(cfg, s) && !s.ix.closed && 1 !in s.threads && CanStay(cfg, Next(cfg, s, Step.Close(1)), id)
  {
    var admit := Admit(0, id, data);
    var s := Next(cfg, INITIAL, admit);
    OneStep(cfg, INITIAL, admit);
    assert Path(cfg, INITIAL, [admit], s);
    assert s.threads[0] == Admitted(id, data);
    assert PutInFlight(s, id);
    hide CanStay, Next, Path;
    CloseIsFinalIff(cfg, s, 1, id);
  }

  /** The other way a file can stay: WriteFile fails half-way, and nobody removes its .tmp file. */
  lemma FailedWriteOutlivesClose(cfg: Config, id: Id, data: Bytes)
    ensures var admit, fail := Admit(0, id, data), FailWrite(0, true);
      var s := Next(cfg, Next(cfg, INITIAL, admit), fail);
      var s' := Next(cfg, Next(cfg, s, Step.Close(1)), EndDrop(1));
      && Reachable(cfg, s) && !s.ix.closed && 1 !in s.threads && (forall id :: !PutInFlight(s, id))
      && Path(cfg, Next(cfg, s, Step.Close(1)), [EndDrop(1)], s')
      && s'.threads == map[] && s'.stuck == {} && s'.temps == {id}
  {
    var admit, fail := Admit(0, id, data), FailWrite(0, true);
    var s0 := Next(cfg, INITIAL, admit);
    var s := Next(cfg, s0, fail);
    assert s0.threads == map[0 := Admitted(id, data)];
    assert s.threads.Keys == {} && s.temps == {id};
    SingleStep(cfg, INITIAL, admit);
    SingleStep(cfg, s0, fail);
    PathAppend(cfg, INITIAL, [admit], s0, [fail], s);
    assert Path(cfg, INITIAL, [admit] + [fail], s);
    var s1 := Next(cfg, s, Step.Close(1));
    assert s1.threads == map[1 := Dropping({})];
    SingleStep(cfg, s1, EndDrop(1));
    assert Next(cfg, s1, EndDrop(1)).threads.Keys == {};
  }
}
