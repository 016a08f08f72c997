/**
 internal/spool/spool.go: the Store, updated in place. Every method leaves it in the state that the
 function of SpoolIndex gives, and keeps its books in order. Readings of the clock, the random id and
 the success of file operations are arguments; files are dealt with in SpoolFiles.
 */
module SpoolStore {
  import opened Wrappers
  import opened SpoolIndex

  const DEFAULT_TTL := 3_600_000_000_000  // one hour, in nanoseconds
  const DEFAULT_MAX_BYTES := 0x1000_0000  // 256 MiB

  datatype PutResult = Stored(e: Entry) | Closed | IoFailed

  class Store {
    const ttl: int
    const maxBytes: int
    var entries: map<Id, Entry>
    var order: seq<Id>
    var total: int
    var closed: bool

    function State(): Index
      reads this
    {
      Index(entries, order, total, closed)
    }

    ghost predicate Invariant()
      reads this
    {
      Valid(State())
    }

    constructor (ttl: int, maxBytes: int)
      ensures Invariant() && State() == EMPTY
      ensures this.ttl == if ttl <= 0 then DEFAULT_TTL else ttl
      ensures this.maxBytes == if maxBytes <= 0 then DEFAULT_MAX_BYTES else maxBytes
    {
      this.ttl := if ttl <= 0 then DEFAULT_TTL else ttl;
      this.maxBytes := if maxBytes <= 0 then DEFAULT_MAX_BYTES else maxBytes;
      entries, order, total, closed := map[], [], 0, false;
    }

    /** Stores `size` bytes; `id` is fresh, `written` says whether the file got into place. */
    method Put(size: nat, rowCount: int, id: Id, written: bool, now: int, clock: Clock)
      returns (r: PutResult, drop: seq<Entry>)
      requires Invariant() && id !in entries
      modifies this
      ensures Invariant()
      ensures old(closed) ==> r == Closed
      ensures !old(closed) ==> r == if written then Stored(Entry(id, size, rowCount, now, now + ttl)) else IoFailed
      ensures r.Stored? ==> State() == SpoolIndex.Sweep(Register(old(State()), r.e), clock, maxBytes)
      ensures r.Stored? ==> drop == Dropped(Register(old(State()), r.e), clock, maxBytes)
      ensures r.Stored? ==> total <= maxBytes || |entries| <= 1
      ensures r.Stored? ==> (id in entries <==> clock(|old(order)|) <= now + ttl)
      ensures closed == old(closed)
      ensures forall i | i in entries ::
                (i == id && r.Stored? && entries[i] == r.e) || (i in old(entries) && entries[i] == old(entries)[i])
      ensures !r.Stored? ==> State() == old(State()) && drop == []
    {
      if closed {
        return Closed, [];
      }
      if !written {
        return IoFailed, [];
      }
      var e := Entry(id, size, rowCount, now, now + ttl);
      ghost var before := State();
      RegisterKeepsValid(before, e);
      OwnEntrySurvives(before, e, clock, maxBytes);
      OthersAreUntouched(before, e, clock, maxBytes);
      hide Valid, Dropped, SpoolIndex.Sweep;
      entries := entries[id := e];
      order := order + [id];
      total := total + size;
      drop := Sweep(clock);
      r := Stored(e);
    }

    /** A result that is there and has not expired. */
    method Get(id: Id, now: int) returns (r: Option<Entry>)
      ensures r == if id in entries && now <= entries[id].expiresAt then Some(entries[id]) else None
    {
      if id !in entries || Expired(entries[id], now) {
        return None;
      }
      return Some(entries[id]);
    }

    /** The result is the list of entries whose files are to be removed, in that order. */
    method Sweep(clock: Clock) returns (drop: seq<Entry>)
      requires Invariant()
      modifies `entries, `order, `total
      ensures Invariant()
      ensures State() == SpoolIndex.Sweep(old(State()), clock, maxBytes)
      ensures drop == Dropped(old(State()), clock, maxBytes)
      ensures total <= maxBytes || |entries| <= 1
    {
      hide Valid, Filtering, Evicting, Dropped, SpoolIndex.Sweep, Expired;
      ghost var before := State();
      SweepKeepsValid(before, clock, maxBytes);
      SweepMeetsLimit(before, clock, maxBytes);
      drop := [];
      var kept: seq<Id> := [];
      FilterStart(before, clock);
      for i := 0 to |order|
        invariant order == before.order && closed == before.closed
        invariant Filtering(before, clock, i, entries, kept, total, drop)
      {
        var id := order[i];
        FilterStep(before, clock, i, entries, kept, total, drop);
        if id in entries {
          var e := entries[id];
          if Expired(e, clock(i)) {
            entries := entries - {id};
            total := total - e.bytes;
            drop := drop + [e];
          } else {
            kept := kept + [id];
          }
        }
      }
      order := kept;
      ghost var n := 0;
      FilterStop(before, clock, maxBytes, entries, kept, total, drop);
      while total > maxBytes && |order| > 1
        invariant closed == before.closed
        invariant Evicting(before, clock, maxBytes, n, entries, order, total, drop)
        decreases |order|
      {
        EvictStep(before, clock, maxBytes, n, entries, order, total, drop);
        n := n + 1;
        var id := order[0];
        order := order[1..];
        if id in entries {
          var e := entries[id];
          entries := entries - {id};
          total := total - e.bytes;
          drop := drop + [e];
        }
      }
      EvictStop(before, clock, maxBytes, n, entries, order, total, drop);
    }

    /** Forgets every entry; the result lists them once each, in no particular order. */
    method Close() returns (drop: seq<Entry>)
      requires Invariant()
      modifies this
      ensures Invariant()
      ensures old(closed) ==> State() == old(State()) && drop == []
      ensures !old(closed) ==> State() == SpoolIndex.Close(old(State()))
      ensures !old(closed) ==> |drop| == |old(entries)|
      ensures !old(closed) ==> forall id | id in old(entries) :: old(entries)[id] in drop
      ensures forall e | e in drop :: e.id in old(entries) && old(entries)[e.id] == e
    {
      if closed {
        return [];
      }
      closed := true;
      drop := [];
      var rest := entries.Keys;
      while rest != {}
        invariant rest <= entries.Keys && |drop| + |rest| == |entries.Keys|
        invariant forall id | id in entries && id !in rest :: entries[id] in drop
        invariant forall e | e in drop :: e.id in entries && entries[e.id] == e
        decreases rest
      {
        var id :| id in rest;
        rest := rest - {id};
        drop := drop + [entries[id]];
      }
      assert |entries.Keys| == |entries|;
      entries, order, total := map[], [], 0;
    }
  }

  /** What is registered after a Put was there before, as it was, or it is the new entry. */
  lemma OthersAreUntouched(ix: Index, e: Entry, clock: Clock, maxBytes: int)
    requires Valid(ix) && e.id !in ix.entries
    ensures forall id | id in SpoolIndex.Sweep(Register(ix, e), clock, maxBytes).entries ::
              var found := SpoolIndex.Sweep(Register(ix, e), clock, maxBytes).entries[id];
              (id == e.id && found == e) || (id in ix.entries && found == ix.entries[id])
  {
    RegisterKeepsValid(ix, e);
    SweepPartitions(Register(ix, e), clock, maxBytes);
    hide SpoolIndex.Sweep, Valid, Dropped;
  }

  // ----- the two loops of Sweep -----

  function Without(entries: map<Id, Entry>, drop: seq<Entry>): map<Id, Entry> {
    map id | id in entries && entries[id] !in drop :: entries[id]
  }

  /** The first loop has looked at the first i ids of what was there before the call. */
  ghost predicate Filtering(before: Index, clock: Clock, i: nat, entries: map<Id, Entry>, kept: seq<Id>, total: int,
                            drop: seq<Entry>)
  {
    && i <= |before.order|
    && kept == Kept(before.entries, before.order[..i], clock)
    && drop == Outdated(before.entries, before.order[..i], clock)
    && entries == Without(before.entries, drop)
    && total == Sum(before.entries, kept) + Sum(before.entries, before.order[i..])
  }

  lemma FilterStart(before: Index, clock: Clock)
    requires Valid(before)
    ensures Filtering(before, clock, 0, before.entries, [], before.total, [])
  {
    assert before.order[..0] == [] && before.order[0..] == before.order;
    assert before.entries == Without(before.entries, []);
  }

  lemma FilterStep(before: Index, clock: Clock, i: nat, entries: map<Id, Entry>, kept: seq<Id>, total: int,
                   drop: seq<Entry>)
    requires Valid(before) && i < |before.order|
    requires Filtering(before, clock, i, entries, kept, total, drop)
    ensures var id := before.order[i];
      && id in entries && entries[id] == before.entries[id]
      && if Expired(entries[id], clock(i))
         then Filtering(before, clock, i + 1, entries - {id}, kept, total - entries[id].bytes, drop + [entries[id]])
         else Filtering(before, clock, i + 1, entries, kept + [id], total, drop)
  {
    hide Kept, Outdated, Sum, Without;
    var id := before.order[i];
    var e := before.entries[id];
    LoopStep(before, clock, i);
    SumStep(before.entries, before.order, i);
    WithoutStep(before.entries, drop, id);
    SumAppend(before.entries, kept, [id]);
  }

  lemma LoopStep(before: Index, clock: Clock, i: nat)
    requires Valid(before) && i < |before.order|
    ensures var entries, order, id := before.entries, before.order, before.order[i];
      && id in entries && entries[id].id == id
      && entries[id] !in Outdated(entries, order[..i], clock)
      && Kept(entries, order[..i + 1], clock)
         == Kept(entries, order[..i], clock) + (if Expired(entries[id], clock(i)) then [] else [id])
      && Outdated(entries, order[..i + 1], clock)
         == Outdated(entries, order[..i], clock) + (if Expired(entries[id], clock(i)) then [entries[id]] else [])
  {
    var order, id := before.order, before.order[i];
    assert id in order && id !in order[..i];
    OutdatedOrKept(before.entries, order[..i], clock);
    OneMore(before.entries, order, clock, i);
    hide Kept, Outdated, Sum;
  }

  lemma OneMore(entries: map<Id, Entry>, order: seq<Id>, clock: Clock, i: nat)
    requires i < |order| && order[i] in entries
    ensures var e := entries[order[i]];
      && Kept(entries, order[..i + 1], clock)
         == Kept(entries, order[..i], clock) + (if Expired(e, clock(i)) then [] else [order[i]])
      && Outdated(entries, order[..i + 1], clock)
         == Outdated(entries, order[..i], clock) + (if Expired(e, clock(i)) then [e] else [])
  {
    assert order[..i + 1][..i] == order[..i];
  }

  lemma SumStep(entries: map<Id, Entry>, order: seq<Id>, i: nat)
    requires i < |order|
    ensures Sum(entries, order[i..]) == Size(entries, order[i]) + Sum(entries, order[i + 1..])
    ensures Sum(entries, [order[i]]) == Size(entries, order[i])
  {
    assert order[i..][1..] == order[i + 1..];
  }

  lemma WithoutStep(entries: map<Id, Entry>, drop: seq<Entry>, id: Id)
    requires id in entries && entries[id] !in drop
    requires forall id | id in entries :: entries[id].id == id
    ensures id in Without(entries, drop) && Without(entries, drop)[id] == entries[id]
    ensures Without(entries, drop + [entries[id]]) == Without(entries, drop) - {id}
  {
  }

  /** The second loop has evicted the first n ids that the first loop kept. */
  ghost predicate Evicting(before: Index, clock: Clock, maxBytes: int, n: nat, entries: map<Id, Entry>, order: seq<Id>,
                           total: int, drop: seq<Entry>)
  {
    var kept := Kept(before.entries, before.order, clock);
    && (forall id | id in kept :: id in before.entries)
    && n <= |kept| && order == kept[n..]
    && Fitting(before.entries, kept, maxBytes) == Fitting(before.entries, order, maxBytes)
    && drop == Outdated(before.entries, before.order, clock) + Lookup(before.entries, kept[..n])
    && entries == Restrict(before.entries, order)
    && total == Sum(before.entries, order)
  }

  lemma FilterStop(before: Index, clock: Clock, maxBytes: int, entries: map<Id, Entry>, kept: seq<Id>, total: int,
                   drop: seq<Entry>)
    requires Valid(before)
    requires Filtering(before, clock, |before.order|, entries, kept, total, drop)
    ensures Evicting(before, clock, maxBytes, 0, entries, kept, total, drop)
  {
    KeptIsLive(before.entries, before.order, clock);
    FilteredAll(before, clock, entries, kept, total, drop);
    hide Filtering, Kept, Outdated, Valid, Fitting, Restrict, Sum;
    assert kept[0..] == kept && kept[..0] == [];
    assert Lookup(before.entries, []) == [];
    assert drop + [] == drop;
  }

  lemma FilteredAll(before: Index, clock: Clock, entries: map<Id, Entry>, kept: seq<Id>, total: int, drop: seq<Entry>)
    requires Valid(before)
    requires Filtering(before, clock, |before.order|, entries, kept, total, drop)
    ensures kept == Kept(before.entries, before.order, clock)
    ensures drop == Outdated(before.entries, before.order, clock)
    ensures entries == Restrict(before.entries, kept) && total == Sum(before.entries, kept)
  {
    WithoutOutdated(before, clock);
    hide Kept, Outdated, Valid, Without, Restrict;
    assert before.order[..|before.order|] == before.order && before.order[|before.order|..] == [];
  }

  lemma WithoutOutdated(before: Index, clock: Clock)
    requires Valid(before)
    ensures Without(before.entries, Outdated(before.entries, before.order, clock))
         == Restrict(before.entries, Kept(before.entries, before.order, clock))
  {
    KeptIsLive(before.entries, before.order, clock);
    OutdatedOrKept(before.entries, before.order, clock);
    hide Kept, Outdated;
  }

  lemma EvictStep(before: Index, clock: Clock, maxBytes: int, n: nat, entries: map<Id, Entry>, order: seq<Id>,
                  total: int, drop: seq<Entry>)
    requires Valid(before)
    requires Evicting(before, clock, maxBytes, n, entries, order, total, drop)
    requires total > maxBytes && |order| > 1
    ensures var id := order[0];
      && id in entries
      && Evicting(before, clock, maxBytes, n + 1, entries - {id}, order[1..], total - entries[id].bytes,
                  drop + [entries[id]])
  {
    var kept := Kept(before.entries, before.order, clock);
    KeptNoDuplicates(before.entries, before.order, clock);
    hide Kept, Outdated, Valid, Fitting, Sum, Restrict, Lookup, NoDuplicates, Size;
    EvictParts(before.entries, kept, n, order, maxBytes, Outdated(before.entries, before.order, clock));
  }

  lemma EvictParts(entries: map<Id, Entry>, kept: seq<Id>, n: nat, order: seq<Id>, maxBytes: int, out: seq<Entry>)
    requires NoDuplicates(kept) && n <= |kept| && order == kept[n..] && |order| > 1
    requires forall id | id in kept :: id in entries
    requires Sum(entries, order) > maxBytes
    ensures var id := order[0];
      && order[1..] == kept[n + 1..]
      && id in Restrict(entries, order) && Restrict(entries, order)[id] == entries[id]
      && Restrict(entries, order) - {id} == Restrict(entries, order[1..])
      && Fitting(entries, order, maxBytes) == Fitting(entries, order[1..], maxBytes)
      && Sum(entries, order) - entries[id].bytes == Sum(entries, order[1..])
      && (out + Lookup(entries, kept[..n])) + [entries[id]] == out + Lookup(entries, kept[..n + 1])
  {
    hide NoDuplicates;
    FittingStep(entries, kept[n..], maxBytes);
    EvictOne(entries, kept, n);
    LookupStep(entries, kept, n);
    DropOne(out, Lookup(entries, kept[..n]), entries[kept[n]]);
  }

  lemma LookupStep(entries: map<Id, Entry>, kept: seq<Id>, n: nat)
    requires n < |kept|
    requires forall id | id in kept :: id in entries
    ensures Lookup(entries, kept[..n + 1]) == Lookup(entries, kept[..n]) + [entries[kept[n]]]
  {
  }

  lemma DropOne(a: seq<Entry>, b: seq<Entry>, e: Entry)
    ensures (a + b) + [e] == a + (b + [e])
  {
  }

  lemma FittingStep(entries: map<Id, Entry>, order: seq<Id>, maxBytes: int)
    requires Sum(entries, order) > maxBytes && |order| > 1
    ensures Fitting(entries, order, maxBytes) == Fitting(entries, order[1..], maxBytes)
    ensures Sum(entries, order) == Size(entries, order[0]) + Sum(entries, order[1..])
  {
  }

  lemma RestrictWithoutFirst(entries: map<Id, Entry>, id: Id, rest: seq<Id>)
    requires id in entries && id !in rest
    ensures id in Restrict(entries, [id] + rest) && Restrict(entries, [id] + rest)[id] == entries[id]
    ensures Restrict(entries, rest) == Restrict(entries, [id] + rest) - {id}
  {
  }

  lemma EvictOne(entries: map<Id, Entry>, kept: seq<Id>, n: nat)
    requires NoDuplicates(kept) && n < |kept|
    requires forall id | id in kept :: id in entries
    ensures kept[n..][0] == kept[n] && kept[n..][1..] == kept[n + 1..]
    ensures kept[n] in Restrict(entries, kept[n..]) && Restrict(entries, kept[n..])[kept[n]] == entries[kept[n]]
    ensures Restrict(entries, kept[n + 1..]) == Restrict(entries, kept[n..]) - {kept[n]}
  {
    SuffixNoDuplicates(kept, n + 1);
    hide NoDuplicates;
    var id, rest := kept[n], kept[n + 1..];
    assert kept[n..] == [id] + rest;
    assert kept[..n + 1][n] == id && id !in rest;
    RestrictWithoutFirst(entries, id, rest);
  }

  lemma EvictStop(before: Index, clock: Clock, maxBytes: int, n: nat, entries: map<Id, Entry>, order: seq<Id>,
                  total: int, drop: seq<Entry>)
    requires Evicting(before, clock, maxBytes, n, entries, order, total, drop)
    requires total <= maxBytes || |order| <= 1
    ensures Index(entries, order, total, before.closed) == Sweep(before, clock, maxBytes)
    ensures drop == Dropped(before, clock, maxBytes)
  {
  }
}
