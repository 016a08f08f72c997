/**
 The index of internal/spool/spool.go over whole runs of Put, Sweep and Close, told by the calls alone:
 what is stored, in which order, and which entry an eviction takes first.
 */
module SpoolHistory {
  import opened SpoolIndex

  /** A call that reaches the index. A Put brings the entry it has written. */
  datatype Op =
    | PutOp(e: Entry, clock: Clock)
    | SweepOp(clock: Clock)
    | CloseOp

  function Step(ix: Index, op: Op, maxBytes: int): Index {
    match op
    case PutOp(e, clock) => if ix.closed then ix else Sweep(Register(ix, e), clock, maxBytes)
    case SweepOp(clock) => Sweep(ix, clock, maxBytes)
    case CloseOp => if ix.closed then ix else Close(ix)
  }

  function After(ops: seq<Op>, maxBytes: int): Index {
    if ops == [] then EMPTY else Step(After(ops[..|ops| - 1], maxBytes), ops[|ops| - 1], maxBytes)
  }

  predicate PutsAt(ops: seq<Op>, i: nat, id: Id) {
    i < |ops| && ops[i].PutOp? && ops[i].e.id == id
  }

  ghost predicate FreshIds(ops: seq<Op>) {
    forall i: nat, j: nat, id | PutsAt(ops, i, id) && PutsAt(ops, j, id) :: i == j
  }

  ghost predicate Closes(ops: seq<Op>) {
    exists i :: 0 <= i < |ops| && ops[i].CloseOp?
  }

  /** The entry was put by the i-th call. */
  ghost predicate EntryOf(ops: seq<Op>, i: nat, e: Entry) {
    PutsAt(ops, i, e.id) && ops[i].e == e
  }

  /** The listed ids were put in the order in which they are listed. */
  ghost predicate InPutOrder(ops: seq<Op>, order: seq<Id>) {
    forall a, b, i: nat, j: nat |
      0 <= a < b < |order| && PutsAt(ops, i, order[a]) && PutsAt(ops, j, order[b]) :: i < j
  }

  ghost predicate AllPut(ops: seq<Op>, ix: Index) {
    forall id | id in ix.entries :: exists i: nat :: EntryOf(ops, i, ix.entries[id])
  }

  // ----- what a sweep does to the order -----

  lemma {:induction false} KeptInOrder(ops: seq<Op>, entries: map<Id, Entry>, order: seq<Id>, clock: Clock)
    requires InPutOrder(ops, order)
    ensures InPutOrder(ops, Kept(entries, order, clock))
  {
    if order != [] {
      var last := |order| - 1;
      var kept := Kept(entries, order[..last], clock);
      assert InPutOrder(ops, order[..last]);
      KeptInOrder(ops, entries, order[..last], clock);
      KeptIsLive(entries, order[..last], clock);
      assert forall id | id in kept :: id in order[..last];
      LastInOrder(ops, kept, order, last);
    }
  }

  lemma LastInOrder(ops: seq<Op>, kept: seq<Id>, order: seq<Id>, last: nat)
    requires last < |order| && InPutOrder(ops, order) && InPutOrder(ops, kept)
    requires forall id | id in kept :: id in order[..last]
    ensures InPutOrder(ops, kept + [order[last]])
  {
    var r := kept + [order[last]];
    forall a, b, i: nat, j: nat | 0 <= a < b < |r| && PutsAt(ops, i, r[a]) && PutsAt(ops, j, r[b])
      ensures i < j
    {
      if b == |kept| {
        assert kept[a] in order[..last];
        var c :| 0 <= c < last && order[c] == kept[a];
      }
    }
  }

  lemma SweptInOrder(ops: seq<Op>, ix: Index, clock: Clock, maxBytes: int)
    requires Valid(ix) && InPutOrder(ops, ix.order)
    ensures InPutOrder(ops, Sweep(ix, clock, maxBytes).order)
  {
    KeptInOrder(ops, ix.entries, ix.order, clock);
    SweptOrder(ix, clock, maxBytes);
    hide Kept, Sweep, Valid;
    var kept := Kept(ix.entries, ix.order, clock);
    SuffixInOrder(ops, kept, |kept| - |Sweep(ix, clock, maxBytes).order|);
  }

  lemma SuffixInOrder(ops: seq<Op>, order: seq<Id>, n: nat)
    requires n <= |order| && InPutOrder(ops, order)
    ensures InPutOrder(ops, order[n..])
  {
    var r := order[n..];
    forall a, b, i: nat, j: nat | 0 <= a < b < |r| && PutsAt(ops, i, r[a]) && PutsAt(ops, j, r[b])
      ensures i < j
    {
      assert r[a] == order[n + a] && r[b] == order[n + b];
    }
  }

  lemma SweepKeepsHistory(ops: seq<Op>, ix: Index, clock: Clock, maxBytes: int)
    requires Valid(ix) && InPutOrder(ops, ix.order) && AllPut(ops, ix)
    ensures var r := Sweep(ix, clock, maxBytes);
      Valid(r) && InPutOrder(ops, r.order) && AllPut(ops, r) && r.closed == ix.closed
  {
    SweepKeepsValid(ix, clock, maxBytes);
    SweptInOrder(ops, ix, clock, maxBytes);
    SweepPartitions(ix, clock, maxBytes);
    assert Sweep(ix, clock, maxBytes).closed == ix.closed;
    hide Valid, InPutOrder, Sweep;
  }

  // ----- one more call -----

  lemma MoreCalls(ops: seq<Op>, op: Op, ix: Index)
    requires FreshIds(ops + [op]) && AllPut(ops, ix) && InPutOrder(ops, ix.order) && Valid(ix)
    ensures FreshIds(ops) && AllPut(ops + [op], ix) && InPutOrder(ops + [op], ix.order)
  {
    var ops' := ops + [op];
    assert forall i: nat, id | PutsAt(ops, i, id) :: PutsAt(ops', i, id);
    forall id | id in ix.entries
      ensures exists i: nat :: EntryOf(ops', i, ix.entries[id])
      ensures forall j: nat | PutsAt(ops', j, id) :: PutsAt(ops, j, id)
    {
      var i: nat :| EntryOf(ops, i, ix.entries[id]);
      assert EntryOf(ops', i, ix.entries[id]);
      assert PutsAt(ops', i, id);
    }
    forall a, b, i: nat, j: nat |
      0 <= a < b < |ix.order| && PutsAt(ops', i, ix.order[a]) && PutsAt(ops', j, ix.order[b])
      ensures i < j
    {
      assert ix.order[a] in ix.entries && ix.order[b] in ix.entries;
    }
  }

  lemma RegisterKeepsHistory(ops: seq<Op>, op: Op, ix: Index)
    requires op.PutOp? && FreshIds(ops + [op])
    requires Valid(ix) && InPutOrder(ops, ix.order) && AllPut(ops, ix)
    ensures op.e.id !in ix.entries
    ensures var r := Register(ix, op.e);
      && Valid(r) && InPutOrder(ops + [op], r.order) && AllPut(ops + [op], r) && r.closed == ix.closed
      && r.entries == ix.entries[op.e.id := op.e]
  {
    var ops', id := ops + [op], op.e.id;
    MoreCalls(ops, op, ix);
    assert PutsAt(ops', |ops|, id) && EntryOf(ops', |ops|, op.e);
    if id in ix.entries {
      var i: nat :| EntryOf(ops, i, ix.entries[id]);
      assert PutsAt(ops', i, id);
      assert false;
    }
    RegisterKeepsValid(ix, op.e);
    NewestInOrder(ops', ix.order, id, |ops|);
  }

  lemma NewestInOrder(ops: seq<Op>, order: seq<Id>, id: Id, last: nat)
    requires FreshIds(ops) && |ops| == last + 1 && PutsAt(ops, last, id)
    requires InPutOrder(ops, order) && id !in order
    ensures InPutOrder(ops, order + [id])
  {
    var r := order + [id];
    forall a, b, i: nat, j: nat | 0 <= a < b < |r| && PutsAt(ops, i, r[a]) && PutsAt(ops, j, r[b])
      ensures i < j
    {
      if b == |order| {
        assert r[a] == order[a] && j == last;
      }
    }
  }

  // ----- whole runs -----

  /**
   After any calls with fresh ids: the books agree; every entry is as its Put brought it; the order is the
   order of the Puts; and the store is closed, and then empty, exactly when Close was called.
   */
  lemma {:induction false} IndexFollowsTheCalls(ops: seq<Op>, maxBytes: int)
    requires FreshIds(ops)
    ensures var ix := After(ops, maxBytes);
      && Valid(ix)
      && AllPut(ops, ix)
      && InPutOrder(ops, ix.order)
      && (ix.closed <==> Closes(ops))
      && (ix.closed ==> ix.entries == map[] && ix.order == [])
  {
    if ops == [] {
      assert After(ops, maxBytes) == EMPTY && Valid(EMPTY);
    } else {
      var last := |ops| - 1;
      var before, op := ops[..last], ops[last];
      assert ops == before + [op];
      FreshBefore(before, op);
      hide Valid, FreshIds, AllPut, InPutOrder, Step, Closes;
      IndexFollowsTheCalls(before, maxBytes);
      OneMoreCall(before, op, After(before, maxBytes), maxBytes);
    }
  }

  lemma FreshBefore(before: seq<Op>, op: Op)
    ensures FreshIds(before + [op]) ==> FreshIds(before)
    ensures Closes(before + [op]) <==> Closes(before) || op.CloseOp?
    ensures !Closes([])
  {
    var ops := before + [op];
    assert forall i: nat, id | PutsAt(before, i, id) :: PutsAt(ops, i, id);
    assert ops[|before|] == op && forall i | 0 <= i < |before| :: ops[i] == before[i];
  }

  lemma OneMoreCall(before: seq<Op>, op: Op, ix: Index, maxBytes: int)
    requires FreshIds(before + [op])
    requires Valid(ix) && AllPut(before, ix) && InPutOrder(before, ix.order)
    requires ix.closed ==> ix.entries == map[] && ix.order == []
    ensures var r := Step(ix, op, maxBytes);
      && Valid(r) && AllPut(before + [op], r) && InPutOrder(before + [op], r.order)
      && (r.closed <==> ix.closed || op.CloseOp?)
      && (r.closed ==> r.entries == map[] && r.order == [])
  {
    var ops := before + [op];
    MoreCalls(before, op, ix);
    match op
    case PutOp(e, clock) =>
      if !ix.closed {
        RegisterKeepsHistory(before, op, ix);
        hide Register, Sweep, Valid, AllPut, InPutOrder;
        SweepKeepsHistory(ops, Register(ix, e), clock, maxBytes);
      }
    case SweepOp(clock) =>
      SweepKeepsHistory(ops, ix, clock, maxBytes);
      if ix.closed {
        SweepShrinksOrder(ix, clock, maxBytes);
      }
    case CloseOp =>
  }

  lemma SweepShrinksOrder(ix: Index, clock: Clock, maxBytes: int)
    requires Valid(ix) && ix.entries == map[] && ix.order == []
    ensures Sweep(ix, clock, maxBytes).entries == map[] && Sweep(ix, clock, maxBytes).order == []
  {
  }

  /** A Put adds its own entry and changes no other: what is there afterwards was there, or is the new one. */
  lemma PutAddsItsEntry(ops: seq<Op>, e: Entry, clock: Clock, maxBytes: int)
    requires FreshIds(ops + [PutOp(e, clock)])
    ensures var ix, r := After(ops, maxBytes), After(ops + [PutOp(e, clock)], maxBytes);
      && (Closes(ops) ==> r == ix)
      && (!Closes(ops) ==> (e.id in r.entries <==> clock(|ix.order|) <= e.expiresAt))
      && forall id | id in r.entries :: r.entries[id] == e || (id in ix.entries && r.entries[id] == ix.entries[id])
  {
    var op := PutOp(e, clock);
    var ix := After(ops, maxBytes);
    hide Sweep, Valid, AllPut, InPutOrder, FreshIds, Closes, Dropped;
    assert (ops + [op])[..|ops|] == ops;
    FreshBefore(ops, op);
    IndexFollowsTheCalls(ops, maxBytes);
    if !ix.closed {
      RegisterKeepsHistory(ops, op, ix);
      OwnEntrySurvives(ix, e, clock, maxBytes);
      SweepPartitions(Register(ix, e), clock, maxBytes);
    }
  }

  // ----- eviction -----

  /** Live is exactly the entries that have not expired. */
  lemma {:induction false} LiveIs(entries: map<Id, Entry>, order: seq<Id>, now: int, id: Id)
    ensures id in Live(entries, order, now) <==> id in order && id in entries && now <= entries[id].expiresAt
  {
    if order != [] {
      LiveIs(entries, order[1..], now, id);
      assert order == [order[0]] + order[1..];
    }
  }

  /**
   With the clock standing still during a Sweep, no expired entry is kept, and an entry that is dropped
   although it has not expired was put before every entry that is kept.
   */
  lemma OldestGoFirst(ops: seq<Op>, ix: Index, clock: Clock, now: int, maxBytes: int, gone: Id, kept: Id)
    requires Valid(ix) && InPutOrder(ops, ix.order) && AllPut(ops, ix)
    requires forall n :: clock(n) == now
    requires kept in Sweep(ix, clock, maxBytes).entries
    ensures kept in ix.entries && now <= ix.entries[kept].expiresAt
    ensures gone in ix.entries && gone !in Sweep(ix, clock, maxBytes).entries && now <= ix.entries[gone].expiresAt ==>
      exists i: nat, j: nat :: i < j && PutsAt(ops, i, gone) && PutsAt(ops, j, kept)
  {
    var r, live := Sweep(ix, clock, maxBytes), Live(ix.entries, ix.order, now);
    SweepIsLongestSuffix(ix, clock, now, maxBytes);
    SweepPartitions(ix, clock, maxBytes);
    SweptIsListed(ix, clock, maxBytes, kept);
    SweptIsListed(ix, clock, maxBytes, gone);
    LiveInOrder(ops, ix, clock, now);
    LiveIs(ix.entries, ix.order, now, kept);
    LiveIs(ix.entries, ix.order, now, gone);
    hide Sweep, Live, Kept, InPutOrder, Dropped;
    var n := |live| - |r.order|;
    SuffixIsListed(live, n, kept);
    if gone in ix.entries && gone !in r.entries && now <= ix.entries[gone].expiresAt {
      assert gone in ix.order;
      var i: nat :| EntryOf(ops, i, ix.entries[gone]);
      var j: nat :| EntryOf(ops, j, ix.entries[kept]);
      HeadBeforeTail(ops, live, n, gone, kept, i, j);
    }
  }

  lemma SweptIsListed(ix: Index, clock: Clock, maxBytes: int, id: Id)
    requires Valid(ix)
    ensures var r := Sweep(ix, clock, maxBytes); id in r.entries <==> id in r.order
  {
    SweepKeepsValid(ix, clock, maxBytes);
    hide Sweep;
  }

  lemma LiveInOrder(ops: seq<Op>, ix: Index, clock: Clock, now: int)
    requires InPutOrder(ops, ix.order) && forall n :: clock(n) == now
    ensures InPutOrder(ops, Live(ix.entries, ix.order, now))
  {
    KeptAtFixedTime(ix.entries, ix.order, clock, now);
    KeptInOrder(ops, ix.entries, ix.order, clock);
    hide InPutOrder;
  }

  lemma SuffixIsListed(order: seq<Id>, n: nat, id: Id)
    requires n <= |order| && id in order[n..]
    ensures id in order
  {
  }

  lemma HeadBeforeTail(ops: seq<Op>, order: seq<Id>, n: nat, gone: Id, kept: Id, i: nat, j: nat)
    requires InPutOrder(ops, order) && n <= |order|
    requires gone in order && gone !in order[n..] && kept in order[n..]
    requires PutsAt(ops, i, gone) && PutsAt(ops, j, kept)
    ensures i < j
  {
    assert order == order[..n] + order[n..];
    assert gone in order[..n];
    var a :| 0 <= a < n && order[..n][a] == gone;
    var b :| 0 <= b < |order| - n && order[n..][b] == kept;
    assert order[a] == gone && order[n + b] == kept;
  }

  /** So it is in every run: a Put evicts the oldest first. */
  lemma PutEvictsTheOldest(ops: seq<Op>, e: Entry, clock: Clock, now: int, maxBytes: int, gone: Id, kept: Id)
    requires FreshIds(ops + [PutOp(e, clock)]) && !Closes(ops)
    requires forall n :: clock(n) == now
    requires var ix, r := After(ops, maxBytes), After(ops + [PutOp(e, clock)], maxBytes);
      && kept in r.entries
      && gone in ix.entries && gone !in r.entries && now <= ix.entries[gone].expiresAt
    ensures exists i: nat, j: nat ::
      i < j && PutsAt(ops + [PutOp(e, clock)], i, gone) && PutsAt(ops + [PutOp(e, clock)], j, kept)
  {
    var op := PutOp(e, clock);
    var ix := After(ops, maxBytes);
    hide Sweep, Valid, AllPut, InPutOrder, FreshIds, Closes, PutsAt;
    assert (ops + [op])[..|ops|] == ops;
    FreshBefore(ops, op);
    IndexFollowsTheCalls(ops, maxBytes);
    RegisterKeepsHistory(ops, op, ix);
    assert gone != e.id;
    OldestGoFirst(ops + [op], Register(ix, e), clock, now, maxBytes, gone, kept);
  }
}
