/**
 internal/spool/spool.go with any number of goroutines. The mutex covers only the index: writing,
 renaming, removing and reading files happen outside it, in between the steps of other goroutines.
 */
module SpoolFiles {
  import opened GoStrings
  import opened SpoolIndex

  type Thread = nat

  /** What a goroutine inside a call still has to do. A goroutine outside every call is not listed. */
  datatype Pc =
    | Admitted(id: Id, data: Bytes)  // Put found the store open and has drawn its id
    | Writing(id: Id, data: Bytes)   // Put has written its .tmp file
    | InPlace(id: Id, data: Bytes)   // Put has renamed it to its final name
    | Listed                         // Put has registered the entry and has to sweep
    | Dropping(ids: set<Id>)         // Sweep or Close has to remove these files
    | Reading(e: Entry)              // ReadAll has found the entry and has to read the file

  /**
   `files` and `temps` are this process's files in the spool directory. The rest is history: the ids
   drawn so far with the data put under them, the files that could not be removed, and the .tmp files
   left behind by a failing write or rename.
   */
  datatype System = System(
    ix: Index,
    files: map<Id, Bytes>,
    temps: set<Id>,
    threads: map<Thread, Pc>,
    drawn: map<Id, Bytes>,
    stuck: set<Id>,
    litter: set<Id>)

  datatype Config = Config(ttl: int, maxBytes: int)

  datatype Step =
    | Admit(t: Thread, id: Id, data: Bytes)
    | Write(t: Thread)
    | FailWrite(t: Thread, partial: bool)
    | Rename(t: Thread)
    | FailRename(t: Thread, cleaned: bool)
    | Register(t: Thread, rowCount: int, now: int)
    | Sweep(t: Thread, clock: Clock)
    | Remove(t: Thread, id: Id, gone: bool)
    | EndDrop(t: Thread)
    | Close(t: Thread)
    | Find(t: Thread, id: Id, now: int)
    | Read(t: Thread)

  const INITIAL := System(EMPTY, map[], {}, map[], map[], {}, {})

  function Leave(s: System, t: Thread): System {
    s.(threads := s.threads - {t})
  }

  ghost predicate Enabled(s: System, step: Step) {
    var idle := step.t !in s.threads;
    match step
    case Admit(t, id, data) => idle && !s.ix.closed && id !in s.drawn
    case Write(t) => !idle && s.threads[t].Admitted?
    case FailWrite(t, partial) => !idle && s.threads[t].Admitted?
    case Rename(t) => !idle && s.threads[t].Writing?
    case FailRename(t, cleaned) => !idle && s.threads[t].Writing?
    case Register(t, rowCount, now) => !idle && s.threads[t].InPlace?
    case Sweep(t, clock) => idle || s.threads[t].Listed?
    case Remove(t, id, gone) => !idle && s.threads[t].Dropping? && id in s.threads[t].ids
    case EndDrop(t) => !idle && s.threads[t] == Dropping({})
    case Close(t) => idle
    case Find(t, id, now) => idle && id in s.ix.entries && !Expired(s.ix.entries[id], now)
    case Read(t) => !idle && s.threads[t].Reading?
  }

  function NewEntry(cfg: Config, id: Id, data: Bytes, rowCount: int, now: int): Entry {
    Entry(id, |data|, rowCount, now, now + cfg.ttl)
  }

  ghost function Next(cfg: Config, s: System, step: Step): System
    requires Enabled(s, step)
  {
    match step
    case Admit(t, id, data) =>
      s.(threads := s.threads[t := Admitted(id, data)], drawn := s.drawn[id := data])
    case Write(t) =>
      var pc := s.threads[t];
      s.(threads := s.threads[t := Writing(pc.id, pc.data)], temps := s.temps + {pc.id})
    case FailWrite(t, partial) =>
      var left := if partial then {s.threads[t].id} else {};
      Leave(s, t).(temps := s.temps + left, litter := s.litter + left)
    case Rename(t) =>
      var pc := s.threads[t];
      s.(threads := s.threads[t := InPlace(pc.id, pc.data)],
         temps := s.temps - {pc.id},
         files := s.files[pc.id := pc.data])
    case FailRename(t, cleaned) =>
      var id := s.threads[t].id;
      if cleaned then Leave(s, t).(temps := s.temps - {id}) else Leave(s, t).(litter := s.litter + {id})
    case Register(t, rowCount, now) =>
      var pc := s.threads[t];
      s.(threads := s.threads[t := Listed],
         ix := SpoolIndex.Register(s.ix, NewEntry(cfg, pc.id, pc.data, rowCount, now)))
    case Sweep(t, clock) =>
      var swept := SpoolIndex.Sweep(s.ix, clock, cfg.maxBytes);
      s.(threads := s.threads[t := Dropping(s.ix.entries.Keys - swept.entries.Keys)], ix := swept)
    case Remove(t, id, gone) =>
      var s' := s.(threads := s.threads[t := Dropping(s.threads[t].ids - {id})]);
      if gone then s'.(files := s.files - {id}) else s'.(stuck := s.stuck + {id})
    case EndDrop(t) => Leave(s, t)
    case Close(t) =>
      if s.ix.closed then s
      else s.(threads := s.threads[t := Dropping(s.ix.entries.Keys)], ix := SpoolIndex.Close(s.ix))
    case Find(t, id, now) => s.(threads := s.threads[t := Reading(s.ix.entries[id])])
    case Read(t) => Leave(s, t)
  }

  /** ReadAll returns these bytes when its file is read in state s; without the file it fails. */
  ghost predicate ReadsData(s: System, e: Entry, data: Bytes) {
    e.id in s.files && s.files[e.id] == data
  }

  // ----- who is responsible for a file -----

  function Owned(pc: Pc): set<Id> {
    match pc
    case Admitted(id, _) => {id}
    case Writing(id, _) => {id}
    case InPlace(id, _) => {id}
    case Dropping(ids) => ids
    case _ => {}
  }

  /** Those of them that are files under their final name. */
  function Held(pc: Pc): set<Id> {
    match pc
    case InPlace(id, _) => {id}
    case Dropping(ids) => ids
    case _ => {}
  }

  ghost predicate HeldBySome(s: System, id: Id) {
    exists t :: t in s.threads && id in Held(s.threads[t])
  }

  /** No id has two parties responsible for it. */
  ghost predicate Exclusive(s: System) {
    && (forall t, u, id | t in s.threads && u in s.threads && id in Owned(s.threads[t]) && id in Owned(s.threads[u]) ::
          t == u)
    && (forall t, id | t in s.threads && id in Owned(s.threads[t]) :: id !in s.ix.entries && id !in s.stuck)
    && (forall id | id in s.ix.entries :: id !in s.stuck)
  }

  /** Every file has a party responsible for it, and every party's files are there. */
  ghost predicate Covered(s: System) {
    && (forall id | id in s.files :: id in s.ix.entries || id in s.stuck || HeldBySome(s, id))
    && s.ix.entries.Keys <= s.files.Keys
    && s.stuck <= s.files.Keys
    && (forall t | t in s.threads :: Held(s.threads[t]) <= s.files.Keys)
    && (forall t | t in s.threads :: Owned(s.threads[t]) - Held(s.threads[t]) !! s.files.Keys)
  }

  /** Files, entries and readers agree with what was put under the id. */
  ghost predicate Faithful(s: System) {
    && (forall id | id in s.files :: id in s.drawn && s.files[id] == s.drawn[id])
    && (forall id | id in s.ix.entries :: id in s.drawn && s.ix.entries[id].bytes == |s.drawn[id]|)
    && (forall t | t in s.threads :: Owned(s.threads[t]) <= s.drawn.Keys)
    && (forall t | t in s.threads && (s.threads[t].Admitted? || s.threads[t].Writing? || s.threads[t].InPlace?) ::
          s.drawn[s.threads[t].id] == s.threads[t].data)
    && (forall t | t in s.threads && s.threads[t].Reading? ::
          var e := s.threads[t].e; e.id in s.drawn && e.bytes == |s.drawn[e.id]|)
  }

  ghost predicate WrittenBySome(s: System, id: Id) {
    exists t :: t in s.threads && s.threads[t].Writing? && s.threads[t].id == id
  }

  /** A .tmp file is being written, or it was left behind. */
  ghost predicate Temporary(s: System) {
    && (forall id | id in s.temps :: id in s.drawn && (id in s.litter || WrittenBySome(s, id)))
    && s.litter <= s.temps
    && (forall t | t in s.threads && s.threads[t].Writing? ::
          s.threads[t].id in s.temps && s.threads[t].id !in s.litter)
    && (forall t | t in s.threads && s.threads[t].Admitted? :: s.threads[t].id !in s.temps)
  }

  ghost predicate Inv(s: System) {
    && Valid(s.ix)
    && Exclusive(s)
    && Covered(s)
    && Faithful(s)
    && Temporary(s)
  }

  lemma SweepShrinks(ix: Index, clock: Clock, maxBytes: int)
    requires Valid(ix)
    ensures var r := SpoolIndex.Sweep(ix, clock, maxBytes);
      r.entries.Keys <= ix.entries.Keys && forall id | id in r.entries :: r.entries[id] == ix.entries[id]
  {
    SweepPartitions(ix, clock, maxBytes);
  }

  // ----- a step of one goroutine moves files between itself, the index and the stuck ones -----

  function OwnedBy(s: System, t: Thread): set<Id> {
    if t in s.threads then Owned(s.threads[t]) else {}
  }

  function HeldBy(s: System, t: Thread): set<Id> {
    if t in s.threads then Held(s.threads[t]) else {}
  }

  /** The party responsible for the id is t, the index or nobody any more. */
  predicate Within(s: System, t: Thread, id: Id) {
    id in OwnedBy(s, t) || id in s.ix.entries || id in s.stuck
  }

  /** No two of t, the index and the stuck files share the id, and its file is there if it should be. */
  predicate Stands(s: System, t: Thread, id: Id) {
    && !(id in OwnedBy(s, t) && id in s.ix.entries)
    && !(id in OwnedBy(s, t) && id in s.stuck)
    && !(id in s.ix.entries && id in s.stuck)
    && (id in HeldBy(s, t) || id in s.ix.entries || id in s.stuck ==> id in s.files)
    && (id in OwnedBy(s, t) && id !in HeldBy(s, t) ==> id !in s.files)
  }

  ghost predicate OthersUnchanged(s: System, s': System, t: Thread) {
    forall u | u != t :: (u in s.threads <==> u in s'.threads) && (u in s.threads ==> s'.threads[u] == s.threads[u])
  }

  /**
   What the step of t does to an id and its file: it takes the id from no other goroutine, and the file
   appears or disappears only in the hands of t, of the index or of nobody.
   */
  predicate Moves(s: System, s': System, t: Thread, id: Id) {
    && Stands(s', t, id)
    && (Within(s', t, id) ==> Within(s, t, id) || id !in s.drawn)
    && (id in s.files && !Within(s, t, id) ==> id in s'.files)
    && (id in s'.files ==>
          id in HeldBy(s', t) || id in s'.ix.entries || id in s'.stuck || (id in s.files && !Within(s, t, id)))
  }

  ghost predicate HandsOver(s: System, s': System, t: Thread) {
    OthersUnchanged(s, s', t) && forall id :: Moves(s, s', t, id)
  }

  /** An id that another goroutine owns stays out of the hands of t, of the index and of the stuck files. */
  lemma OthersKeepTheirIds(s: System, s': System, t: Thread, u: Thread, id: Id)
    requires Exclusive(s) && Faithful(s) && HandsOver(s, s', t)
    requires u in s'.threads && u != t && id in Owned(s'.threads[u])
    ensures u in s.threads && id in Owned(s.threads[u]) && !Within(s', t, id)
  {
    assert Moves(s, s', t, id);
    assert id in Owned(s.threads[u]);
  }

  lemma HandoverKeepsExclusive(s: System, s': System, t: Thread)
    requires Exclusive(s) && Faithful(s) && HandsOver(s, s', t)
    ensures Exclusive(s')
  {
    forall u, id | u in s'.threads && u != t && id in Owned(s'.threads[u])
      ensures u in s.threads && id in Owned(s.threads[u])
      ensures id !in s'.ix.entries && id !in s'.stuck && id !in OwnedBy(s', t)
    {
      OthersKeepTheirIds(s, s', t, u, id);
    }
    forall id
      ensures id in OwnedBy(s', t) ==> id !in s'.ix.entries && id !in s'.stuck
      ensures id in s'.ix.entries ==> id !in s'.stuck
    {
      assert Moves(s, s', t, id);
    }
    hide Faithful, HandsOver;
    assert t in s'.threads ==> Owned(s'.threads[t]) == OwnedBy(s', t);
  }

  lemma HandoverKeepsCovered(s: System, s': System, t: Thread)
    requires Exclusive(s) && Exclusive(s') && Covered(s) && HandsOver(s, s', t)
    ensures Covered(s')
  {
    forall id
      ensures Stands(s', t, id)
      ensures id in s'.files ==> id in s'.ix.entries || id in s'.stuck || HeldBySome(s', id)
    {
      assert Moves(s, s', t, id);
      if id in s.files && !Within(s, t, id) {
        var u :| u in s.threads && id in Held(s.threads[u]);
        assert u in s'.threads && id in Held(s'.threads[u]);
      }
    }
    forall u, id | u in s'.threads && u != t && id in Owned(s'.threads[u])
      ensures id in s'.files <==> id in Held(s'.threads[u])
    {
      OthersKeepTheirFiles(s, s', t, u, id);
    }
    hide Exclusive, HandsOver, HeldBySome;
  }

  lemma OthersKeepTheirFiles(s: System, s': System, t: Thread, u: Thread, id: Id)
    requires Exclusive(s) && Exclusive(s') && Covered(s) && HandsOver(s, s', t)
    requires u in s'.threads && u != t && id in Owned(s'.threads[u])
    ensures id in s'.files <==> id in Held(s'.threads[u])
  {
    hide HeldBySome;
    assert Moves(s, s', t, id);
    assert id in Owned(s.threads[u]) && id !in OwnedBy(s, t);
  }

  lemma ThreadStands(s: System, t: Thread, id: Id)
    requires Inv(s)
    ensures Stands(s, t, id)
  {
    hide Valid, Faithful, Temporary, HeldBySome;
  }

  /** The id of every file, entry and owner has been drawn. */
  lemma DrawnBefore(s: System, t: Thread, id: Id)
    requires Inv(s)
    ensures id in OwnedBy(s, t) || id in s.ix.entries || id in s.files ==> id in s.drawn
  {
    hide Valid, Exclusive, Covered, Temporary;
  }

  lemma AdmitHandsOver(cfg: Config, s: System, step: Step)
    requires Inv(s) && Enabled(s, step) && step.Admit?
    ensures HandsOver(s, Next(cfg, s, step), step.t)
  {
    hide Inv;
    forall id
      ensures Moves(s, Next(cfg, s, step), step.t, id)
    {
      ThreadStands(s, step.t, id);
      DrawnBefore(s, step.t, id);
    }
  }

  lemma WriteHandsOver(cfg: Config, s: System, step: Step)
    requires Inv(s) && Enabled(s, step) && step.Write?
    ensures HandsOver(s, Next(cfg, s, step), step.t)
  {
    hide Inv;
    forall id
      ensures Moves(s, Next(cfg, s, step), step.t, id)
    {
      ThreadStands(s, step.t, id);
    }
  }

  lemma FailWriteHandsOver(cfg: Config, s: System, step: Step)
    requires Inv(s) && Enabled(s, step) && step.FailWrite?
    ensures HandsOver(s, Next(cfg, s, step), step.t)
  {
    hide Inv;
    forall id
      ensures Moves(s, Next(cfg, s, step), step.t, id)
    {
      ThreadStands(s, step.t, id);
    }
  }

  lemma RenameHandsOver(cfg: Config, s: System, step: Step)
    requires Inv(s) && Enabled(s, step) && step.Rename?
    ensures HandsOver(s, Next(cfg, s, step), step.t)
  {
    hide Inv;
    forall id
      ensures Moves(s, Next(cfg, s, step), step.t, id)
    {
      ThreadStands(s, step.t, id);
    }
  }

  lemma FailRenameHandsOver(cfg: Config, s: System, step: Step)
    requires Inv(s) && Enabled(s, step) && step.FailRename?
    ensures HandsOver(s, Next(cfg, s, step), step.t)
  {
    hide Inv;
    forall id
      ensures Moves(s, Next(cfg, s, step), step.t, id)
    {
      ThreadStands(s, step.t, id);
    }
  }

  lemma RegisterHandsOver(cfg: Config, s: System, step: Step)
    requires Inv(s) && Enabled(s, step) && step.Register?
    ensures HandsOver(s, Next(cfg, s, step), step.t)
  {
    hide Inv;
    forall id
      ensures Moves(s, Next(cfg, s, step), step.t, id)
    {
      ThreadStands(s, step.t, id);
    }
  }

  /** Sweep and Close: entries leave the index, and the goroutine takes their files over. */
  lemma ShrinkHandsOver(s: System, t: Thread, ix: Index)
    requires Inv(s) && OwnedBy(s, t) == {}
    requires ix.entries.Keys <= s.ix.entries.Keys
    ensures HandsOver(s, s.(threads := s.threads[t := Dropping(s.ix.entries.Keys - ix.entries.Keys)], ix := ix), t)
  {
    hide Inv;
    var s' := s.(threads := s.threads[t := Dropping(s.ix.entries.Keys - ix.entries.Keys)], ix := ix);
    forall id
      ensures Moves(s, s', t, id)
    {
      ThreadStands(s, t, id);
    }
  }

  lemma SweepHandsOver(cfg: Config, s: System, step: Step)
    requires Inv(s) && Enabled(s, step) && step.Sweep?
    ensures HandsOver(s, Next(cfg, s, step), step.t)
  {
    InvIsValid(s);
    assert OwnedBy(s, step.t) == {};
    hide SpoolIndex.Sweep, Inv, Valid, HandsOver, Enabled;
    SweepShrinks(s.ix, step.clock, cfg.maxBytes);
    ShrinkHandsOver(s, step.t, SpoolIndex.Sweep(s.ix, step.clock, cfg.maxBytes));
  }

  lemma NothingHandsOver(s: System, t: Thread)
    requires Inv(s) && t !in s.threads
    ensures HandsOver(s, s, t)
  {
    hide Inv;
    forall id
      ensures Moves(s, s, t, id)
    {
      ThreadStands(s, t, id);
    }
  }

  lemma CloseHandsOver(cfg: Config, s: System, step: Step)
    requires Inv(s) && Enabled(s, step) && step.Close?
    ensures HandsOver(s, Next(cfg, s, step), step.t)
  {
    hide Inv, HandsOver;
    if s.ix.closed {
      NothingHandsOver(s, step.t);
    } else {
      ShrinkHandsOver(s, step.t, SpoolIndex.Close(s.ix));
      assert SpoolIndex.Close(s.ix).entries.Keys == {};
      assert s.ix.entries.Keys - {} == s.ix.entries.Keys;
    }
  }

  lemma InvIsValid(s: System)
    requires Inv(s)
    ensures Valid(s.ix)
  {
  }

  lemma RemoveHandsOver(cfg: Config, s: System, step: Step)
    requires Inv(s) && Enabled(s, step) && step.Remove?
    ensures HandsOver(s, Next(cfg, s, step), step.t)
  {
    hide Inv;
    forall id
      ensures Moves(s, Next(cfg, s, step), step.t, id)
    {
      ThreadStands(s, step.t, id);
    }
  }

  lemma EndDropHandsOver(cfg: Config, s: System, step: Step)
    requires Inv(s) && Enabled(s, step) && step.EndDrop?
    ensures HandsOver(s, Next(cfg, s, step), step.t)
  {
    hide Inv;
    forall id
      ensures Moves(s, Next(cfg, s, step), step.t, id)
    {
      ThreadStands(s, step.t, id);
    }
  }

  lemma FindHandsOver(cfg: Config, s: System, step: Step)
    requires Inv(s) && Enabled(s, step) && step.Find?
    ensures HandsOver(s, Next(cfg, s, step), step.t)
  {
    hide Inv;
    forall id
      ensures Moves(s, Next(cfg, s, step), step.t, id)
    {
      ThreadStands(s, step.t, id);
    }
  }

  lemma ReadHandsOver(cfg: Config, s: System, step: Step)
    requires Inv(s) && Enabled(s, step) && step.Read?
    ensures HandsOver(s, Next(cfg, s, step), step.t)
  {
    hide Inv;
    forall id
      ensures Moves(s, Next(cfg, s, step), step.t, id)
    {
      ThreadStands(s, step.t, id);
    }
  }

  lemma StepHandsOver(cfg: Config, s: System, step: Step)
    requires Inv(s) && Enabled(s, step)
    ensures HandsOver(s, Next(cfg, s, step), step.t)
  {
    hide Inv, Enabled, Next, HandsOver;
    match step
    case Admit(_, _, _) => AdmitHandsOver(cfg, s, step);
    case Write(_) => WriteHandsOver(cfg, s, step);
    case FailWrite(_, _) => FailWriteHandsOver(cfg, s, step);
    case Rename(_) => RenameHandsOver(cfg, s, step);
    case FailRename(_, _) => FailRenameHandsOver(cfg, s, step);
    case Register(_, _, _) => RegisterHandsOver(cfg, s, step);
    case Sweep(_, _) => SweepHandsOver(cfg, s, step);
    case Remove(_, _, _) => RemoveHandsOver(cfg, s, step);
    case EndDrop(_) => EndDropHandsOver(cfg, s, step);
    case Close(_) => CloseHandsOver(cfg, s, step);
    case Find(_, _, _) => FindHandsOver(cfg, s, step);
    case Read(_) => ReadHandsOver(cfg, s, step);
  }

  lemma StepKeepsBooks(cfg: Config, s: System, step: Step)
    requires Inv(s) && Enabled(s, step)
    ensures Valid(Next(cfg, s, step).ix)
  {
    InvIsValid(s);
    hide Inv, Valid, SpoolIndex.Register, SpoolIndex.Sweep, SpoolIndex.Close;
    match step
    case Register(t, rowCount, now) =>
      var pc := s.threads[t];
      ThreadStands(s, t, pc.id);
      RegisterKeepsValid(s.ix, NewEntry(cfg, pc.id, pc.data, rowCount, now));
    case Sweep(t, clock) => SweepKeepsValid(s.ix, clock, cfg.maxBytes);
    case Close(_) => CloseKeepsValid(s.ix);
    case _ =>
  }

  // ----- contents and temporary files -----

  /** What Faithful asks of one goroutine. */
  ghost predicate ThreadFaithful(drawn: map<Id, Bytes>, pc: Pc) {
    && Owned(pc) <= drawn.Keys
    && (pc.Admitted? || pc.Writing? || pc.InPlace? ==> drawn[pc.id] == pc.data)
    && (pc.Reading? ==> pc.e.id in drawn && pc.e.bytes == |drawn[pc.e.id]|)
  }

  lemma FaithfulByThread(s: System, s': System, t: Thread)
    requires Faithful(s) && OthersUnchanged(s, s', t)
    requires forall id | id in s.drawn :: id in s'.drawn && s'.drawn[id] == s.drawn[id]
    requires t in s'.threads ==> ThreadFaithful(s'.drawn, s'.threads[t])
    requires forall id | id in s'.files :: id in s'.drawn && s'.files[id] == s'.drawn[id]
    requires forall id | id in s'.ix.entries :: id in s'.drawn && s'.ix.entries[id].bytes == |s'.drawn[id]|
    ensures Faithful(s')
  {
    forall u | u in s'.threads && u != t
      ensures ThreadFaithful(s'.drawn, s'.threads[u])
    {
      assert ThreadFaithful(s.drawn, s.threads[u]);
    }
  }

  lemma ShrinkKeepsFaithful(s: System, t: Thread, ix: Index)
    requires Inv(s)
    requires forall id | id in ix.entries :: id in s.ix.entries && ix.entries[id] == s.ix.entries[id]
    ensures Faithful(s.(threads := s.threads[t := Dropping(s.ix.entries.Keys - ix.entries.Keys)], ix := ix))
  {
    hide Exclusive, Temporary, Valid;
    var s' := s.(threads := s.threads[t := Dropping(s.ix.entries.Keys - ix.entries.Keys)], ix := ix);
    FaithfulByThread(s, s', t);
  }

  lemma StepKeepsFaithful(cfg: Config, s: System, step: Step)
    requires Inv(s) && Enabled(s, step)
    ensures Faithful(Next(cfg, s, step))
  {
    hide Exclusive, Covered, Temporary, Faithful, Valid, SpoolIndex.Sweep;
    if step.Sweep? {
      SweepShrinks(s.ix, step.clock, cfg.maxBytes);
      ShrinkKeepsFaithful(s, step.t, SpoolIndex.Sweep(s.ix, step.clock, cfg.maxBytes));
    } else {
      StepHandsOver(cfg, s, step);
      assert OthersUnchanged(s, Next(cfg, s, step), step.t);
      hide Next, HandsOver;
      if step.Find? {
        FindKeepsFaithful(cfg, s, step);
      } else if step.Remove? {
        RemoveKeepsFaithful(cfg, s, step);
      } else if step.EndDrop? || step.Close? || step.Read? {
        EndKeepsFaithful(cfg, s, step);
      } else {
        PutKeepsFaithful(cfg, s, step);
      }
    }
  }

  lemma PutKeepsFaithful(cfg: Config, s: System, step: Step)
    requires Inv(s) && Enabled(s, step)
    requires step.Admit? || step.Write? || step.FailWrite? || step.Rename? || step.FailRename? || step.Register?
    requires OthersUnchanged(s, Next(cfg, s, step), step.t)
    ensures Faithful(Next(cfg, s, step))
  {
    hide Exclusive, Covered, Temporary, Valid, OthersUnchanged;
    assert step.t in s.threads ==> ThreadFaithful(s.drawn, s.threads[step.t]);
    FaithfulByThread(s, Next(cfg, s, step), step.t);
  }

  lemma FindKeepsFaithful(cfg: Config, s: System, step: Step)
    requires Inv(s) && Enabled(s, step) && step.Find?
    requires OthersUnchanged(s, Next(cfg, s, step), step.t)
    ensures Faithful(Next(cfg, s, step))
  {
    assert s.ix.entries[step.id].id == step.id;
    hide Exclusive, Covered, Temporary, Valid, OthersUnchanged;
    FaithfulByThread(s, Next(cfg, s, step), step.t);
  }

  lemma RemoveKeepsFaithful(cfg: Config, s: System, step: Step)
    requires Inv(s) && Enabled(s, step) && step.Remove?
    requires OthersUnchanged(s, Next(cfg, s, step), step.t)
    ensures Faithful(Next(cfg, s, step))
  {
    hide Exclusive, Covered, Temporary, Valid, OthersUnchanged;
    FaithfulByThread(s, Next(cfg, s, step), step.t);
  }

  lemma EndKeepsFaithful(cfg: Config, s: System, step: Step)
    requires Inv(s) && Enabled(s, step) && (step.EndDrop? || step.Close? || step.Read?)
    requires OthersUnchanged(s, Next(cfg, s, step), step.t)
    ensures Faithful(Next(cfg, s, step))
  {
    hide Exclusive, Covered, Temporary, Valid, OthersUnchanged;
    FaithfulByThread(s, Next(cfg, s, step), step.t);
  }

  lemma TemporaryElsewhere(s: System, s': System, t: Thread)
    requires Temporary(s) && OthersUnchanged(s, s', t)
    requires s'.temps == s.temps && s'.litter == s.litter && s'.drawn == s.drawn
    requires t in s.threads ==> !s.threads[t].Writing?
    requires t in s'.threads ==> !s'.threads[t].Writing? && !s'.threads[t].Admitted?
    ensures Temporary(s')
  {
    forall id | id in s'.temps
      ensures id in s'.drawn && (id in s'.litter || WrittenBySome(s', id))
    {
      if id !in s.litter {
        var u :| u in s.threads && s.threads[u].Writing? && s.threads[u].id == id;
        assert u in s'.threads;
      }
    }
  }

  /** A Put moves on: only its own .tmp file changes hands. */
  lemma TemporaryInPut(s: System, s': System, t: Thread, id: Id)
    requires Temporary(s) && Exclusive(s) && OthersUnchanged(s, s', t)
    requires id in s'.drawn && forall x | x in s.drawn :: x in s'.drawn
    requires OwnedBy(s, t) <= {id}
    requires forall u | u in s.threads && u != t :: id !in Owned(s.threads[u])
    requires forall x | x != id :: (x in s'.temps <==> x in s.temps) && (x in s'.litter <==> x in s.litter)
    requires var writing := t in s'.threads && s'.threads[t].Writing?;
      && (id in s'.temps <==> writing || id in s'.litter)
      && !(writing && id in s'.litter)
      && (writing ==> s'.threads[t].id == id)
      && (t in s'.threads && s'.threads[t].Admitted? ==> s'.threads[t].id == id && id !in s'.temps)
    ensures Temporary(s')
  {
    forall x | x in s'.temps
      ensures x in s'.drawn && (x in s'.litter || WrittenBySome(s', x))
    {
      if x == id {
        assert x in s'.litter || (t in s'.threads && s'.threads[t].id == x);
      } else if x !in s.litter {
        var u :| u in s.threads && s.threads[u].Writing? && s.threads[u].id == x;
        assert u in s'.threads && s'.threads[u] == s.threads[u];
      }
    }
    forall u | u in s'.threads && u != t && (s'.threads[u].Writing? || s'.threads[u].Admitted?)
      ensures s'.threads[u].id != id
    {
      assert id !in Owned(s.threads[u]);
    }
    assert forall x | x in s'.litter :: x in s'.temps;
  }

  lemma StepKeepsTemporary(cfg: Config, s: System, step: Step)
    requires Inv(s) && Enabled(s, step)
    ensures Temporary(Next(cfg, s, step))
  {
    StepHandsOver(cfg, s, step);
    assert OthersUnchanged(s, Next(cfg, s, step), step.t);
    hide HandsOver, OthersUnchanged, Inv, Next, Temporary;
    if step.Admit? {
      AdmitKeepsTemporary(cfg, s, step);
    } else if step.Write? || step.FailWrite? || step.Rename? || step.FailRename? {
      PutStepKeepsTemporary(cfg, s, step);
    } else {
      OtherStepKeepsTemporary(cfg, s, step);
    }
  }

  lemma AdmitKeepsTemporary(cfg: Config, s: System, step: Step)
    requires Inv(s) && Enabled(s, step) && step.Admit?
    requires OthersUnchanged(s, Next(cfg, s, step), step.t)
    ensures Temporary(Next(cfg, s, step))
  {
    assert step.id !in s.temps && step.id !in s.litter;
    assert forall u | u in s.threads :: step.id !in Owned(s.threads[u]);
    hide Covered, Valid, Faithful, OthersUnchanged, Temporary;
    TemporaryInPut(s, Next(cfg, s, step), step.t, step.id);
  }

  lemma OtherStepKeepsTemporary(cfg: Config, s: System, step: Step)
    requires Inv(s) && Enabled(s, step) && !step.Admit?
    requires !step.Write? && !step.FailWrite? && !step.Rename? && !step.FailRename?
    requires OthersUnchanged(s, Next(cfg, s, step), step.t)
    ensures Temporary(Next(cfg, s, step))
  {
    hide Exclusive, Covered, Valid, Faithful, OthersUnchanged, Temporary, SpoolIndex.Sweep, SpoolIndex.Register;
    TemporaryElsewhere(s, Next(cfg, s, step), step.t);
  }

  lemma PutStepKeepsTemporary(cfg: Config, s: System, step: Step)
    requires Inv(s) && Enabled(s, step)
    requires step.Write? || step.FailWrite? || step.Rename? || step.FailRename?
    requires OthersUnchanged(s, Next(cfg, s, step), step.t)
    ensures Temporary(Next(cfg, s, step))
  {
    var id := s.threads[step.t].id;
    assert id in Owned(s.threads[step.t]);
    hide Covered, Valid;
    TemporaryInPut(s, Next(cfg, s, step), step.t, id);
  }

  lemma StepKeepsInv(cfg: Config, s: System, step: Step)
    requires Inv(s) && Enabled(s, step)
    ensures Inv(Next(cfg, s, step))
  {
    StepHandsOver(cfg, s, step);
    StepKeepsBooks(cfg, s, step);
    StepKeepsFaithful(cfg, s, step);
    StepKeepsTemporary(cfg, s, step);
    hide Next, Enabled, Valid, Temporary;
    HandoverKeepsExclusive(s, Next(cfg, s, step), step.t);
    HandoverKeepsCovered(s, Next(cfg, s, step), step.t);
  }
}
