/**
 internal/spool/spool.go: what the store keeps under its mutex, as values. A map of entries, the ids
 in order of creation and the sum of the sizes have to tell the same story at all times.
 */
module SpoolIndex {
  import opened GoStrings
  import opened Sets

  type Id = Bytes

  datatype Entry = Entry(id: Id, bytes: nat, rowCount: int, createdAt: int, expiresAt: int)

  datatype Index = Index(entries: map<Id, Entry>, order: seq<Id>, total: int, closed: bool)

  /** Readings of the clock in one call: the n-th reading is clock(n). */
  type Clock = nat -> int

  const EMPTY := Index(map[], [], 0, false)

  predicate Expired(e: Entry, now: int) {
    now > e.expiresAt
  }

  predicate NoDuplicates(order: seq<Id>) {
    forall i, j | 0 <= i < j < |order| :: order[i] != order[j]
  }

  function Size(entries: map<Id, Entry>, id: Id): nat {
    if id in entries then entries[id].bytes else 0
  }

  function Sum(entries: map<Id, Entry>, order: seq<Id>): nat {
    if order == [] then 0 else Size(entries, order[0]) + Sum(entries, order[1..])
  }

  /** The invariant that every locked section keeps. */
  ghost predicate Valid(ix: Index) {
    && NoDuplicates(ix.order)
    && (forall id :: id in ix.entries <==> id in ix.order)
    && (forall id | id in ix.entries :: ix.entries[id].id == id)
    && ix.total == Sum(ix.entries, ix.order)
  }

  // ----- the locked sections -----

  function Register(ix: Index, e: Entry): Index {
    ix.(entries := ix.entries[e.id := e], order := ix.order + [e.id], total := ix.total + e.bytes)
  }

  /** The ids that the first loop of Sweep keeps. */
  function Kept(entries: map<Id, Entry>, order: seq<Id>, clock: Clock): seq<Id> {
    if order == [] then []
    else
      var last := |order| - 1;
      Kept(entries, order[..last], clock) +
      if order[last] in entries && !Expired(entries[order[last]], clock(last)) then [order[last]] else []
  }

  /** The entries that the first loop of Sweep drops. */
  function Outdated(entries: map<Id, Entry>, order: seq<Id>, clock: Clock): seq<Entry> {
    if order == [] then []
    else
      var last := |order| - 1;
      Outdated(entries, order[..last], clock) +
      if order[last] in entries && Expired(entries[order[last]], clock(last)) then [entries[order[last]]] else []
  }

  /** What the second loop leaves: it takes the oldest away while the rest is too large. */
  function Fitting(entries: map<Id, Entry>, order: seq<Id>, maxBytes: int): (r: seq<Id>)
    ensures |r| <= |order| && r == order[|order| - |r|..]
  {
    if Sum(entries, order) > maxBytes && |order| > 1 then Fitting(entries, order[1..], maxBytes) else order
  }

  function Restrict(entries: map<Id, Entry>, order: seq<Id>): map<Id, Entry> {
    map id | id in entries && id in order :: entries[id]
  }

  function Sweep(ix: Index, clock: Clock, maxBytes: int): Index {
    var order := Fitting(ix.entries, Kept(ix.entries, ix.order, clock), maxBytes);
    Index(Restrict(ix.entries, order), order, Sum(ix.entries, order), ix.closed)
  }

  function Lookup(entries: map<Id, Entry>, order: seq<Id>): seq<Entry>
    requires forall id | id in order :: id in entries
  {
    seq(|order|, i requires 0 <= i < |order| => entries[order[i]])
  }

  /** The entries that Sweep drops, in the order in which their files are removed. */
  function Dropped(ix: Index, clock: Clock, maxBytes: int): seq<Entry> {
    KeptIsLive(ix.entries, ix.order, clock);
    var kept := Kept(ix.entries, ix.order, clock);
    var n := |kept| - |Fitting(ix.entries, kept, maxBytes)|;
    Outdated(ix.entries, ix.order, clock) + Lookup(ix.entries, kept[..n])
  }

  function Close(ix: Index): Index {
    Index(map[], [], 0, true)
  }

  // ----- the first loop: a filter -----

  lemma {:induction false} KeptIsLive(entries: map<Id, Entry>, order: seq<Id>, clock: Clock)
    ensures forall id | id in Kept(entries, order, clock) :: id in entries && id in order
  {
    if order != [] {
      KeptIsLive(entries, order[..|order| - 1], clock);
    }
  }

  lemma {:induction false} KeptNoDuplicates(entries: map<Id, Entry>, order: seq<Id>, clock: Clock)
    requires NoDuplicates(order)
    ensures NoDuplicates(Kept(entries, order, clock))
  {
    if order != [] {
      var last := |order| - 1;
      KeptNoDuplicates(entries, order[..last], clock);
      KeptIsLive(entries, order[..last], clock);
      assert order[last] !in order[..last];
    }
  }

  /** The entries that have not expired at a fixed time, oldest first. */
  function Live(entries: map<Id, Entry>, order: seq<Id>, now: int): seq<Id> {
    if order == [] then []
    else
      (if order[0] in entries && !Expired(entries[order[0]], now) then [order[0]] else []) +
      Live(entries, order[1..], now)
  }

  lemma {:induction false} LiveAppend(entries: map<Id, Entry>, a: seq<Id>, b: seq<Id>, now: int)
    ensures Live(entries, a + b, now) == Live(entries, a, now) + Live(entries, b, now)
  {
    if a == [] {
      assert a + b == b;
    } else {
      LiveAppend(entries, a[1..], b, now);
      assert (a + b)[1..] == a[1..] + b && (a + b)[0] == a[0];
    }
  }

  lemma {:induction false} KeptAtFixedTime(entries: map<Id, Entry>, order: seq<Id>, clock: Clock, now: int)
    requires forall n :: clock(n) == now
    ensures Kept(entries, order, clock) == Live(entries, order, now)
  {
    if order != [] {
      var last := |order| - 1;
      KeptAtFixedTime(entries, order[..last], clock, now);
      LiveAppend(entries, order[..last], [order[last]], now);
      assert order == order[..last] + [order[last]];
    }
  }

  // ----- the second loop: a suffix -----

  lemma {:induction false} FittingIsLongest(entries: map<Id, Entry>, order: seq<Id>, maxBytes: int)
    ensures var r := Fitting(entries, order, maxBytes);
      && (Sum(entries, r) <= maxBytes || |r| <= 1)
      && (order != [] ==> r != [])
      && forall k | 0 <= k < |order| - |r| :: Sum(entries, order[k..]) > maxBytes
  {
    if Sum(entries, order) > maxBytes && |order| > 1 {
      var r := Fitting(entries, order, maxBytes);
      FittingIsLongest(entries, order[1..], maxBytes);
      forall k | 0 <= k < |order| - |r|
        ensures Sum(entries, order[k..]) > maxBytes
      {
        if k == 0 {
          assert order[0..] == order;
        } else {
          assert order[1..][k - 1..] == order[k..];
        }
      }
    }
  }

  /**
   With the clock standing still during the call, Sweep keeps the longest suffix of the live entries
   that fits into maxBytes, or the newest live entry alone when even that does not fit.
   */
  lemma SweepIsLongestSuffix(ix: Index, clock: Clock, now: int, maxBytes: int)
    requires Valid(ix)
    requires forall n :: clock(n) == now
    ensures var live, r := Live(ix.entries, ix.order, now), Sweep(ix, clock, maxBytes);
      && |r.order| <= |live| && r.order == live[|live| - |r.order|..]
      && (r.total <= maxBytes || |r.order| <= 1)
      && (live != [] ==> r.order != [])
      && forall k | 0 <= k < |live| - |r.order| :: Sum(ix.entries, live[k..]) > maxBytes
  {
    hide Sum, Kept, Live, Fitting;
    KeptAtFixedTime(ix.entries, ix.order, clock, now);
    FittingIsLongest(ix.entries, Live(ix.entries, ix.order, now), maxBytes);
  }

  // ----- the invariant -----

  lemma {:induction false} SumOfRestriction(entries: map<Id, Entry>, m: map<Id, Entry>, order: seq<Id>)
    requires forall id | id in order :: Size(m, id) == Size(entries, id)
    ensures Sum(m, order) == Sum(entries, order)
  {
    if order != [] {
      SumOfRestriction(entries, m, order[1..]);
    }
  }

  lemma {:induction false} SumAppend(entries: map<Id, Entry>, a: seq<Id>, b: seq<Id>)
    ensures Sum(entries, a + b) == Sum(entries, a) + Sum(entries, b)
  {
    if a == [] {
      assert a + b == b;
    } else {
      SumAppend(entries, a[1..], b);
      assert (a + b)[1..] == a[1..] + b;
    }
  }

  lemma CloseKeepsValid(ix: Index)
    ensures Valid(Close(ix))
  {
  }

  /** A fresh id keeps the books in order. */
  lemma RegisterKeepsValid(ix: Index, e: Entry)
    requires Valid(ix) && e.id !in ix.entries
    ensures Valid(Register(ix, e))
  {
    var r := Register(ix, e);
    SumAppend(r.entries, ix.order, [e.id]);
    SumOfRestriction(ix.entries, r.entries, ix.order);
  }

  lemma SuffixNoDuplicates(order: seq<Id>, n: nat)
    requires NoDuplicates(order) && n <= |order|
    ensures NoDuplicates(order[n..])
    ensures forall id | id in order[n..] :: id in order && id !in order[..n]
  {
  }

  lemma RestrictKeys(entries: map<Id, Entry>, order: seq<Id>)
    requires forall id | id in order :: id in entries
    ensures forall id :: id in Restrict(entries, order) <==> id in order
    ensures Sum(Restrict(entries, order), order) == Sum(entries, order)
  {
    SumOfRestriction(entries, Restrict(entries, order), order);
  }

  /** What Sweep keeps: a suffix of what its first loop kept, all of it registered. */
  lemma SweptOrder(ix: Index, clock: Clock, maxBytes: int)
    requires Valid(ix)
    ensures var r, kept := Sweep(ix, clock, maxBytes), Kept(ix.entries, ix.order, clock);
      && NoDuplicates(kept) && NoDuplicates(r.order)
      && |r.order| <= |kept| && r.order == kept[|kept| - |r.order|..]
      && (forall id | id in kept :: id in ix.entries)
      && (forall id | id in r.order :: id in kept && id !in kept[..|kept| - |r.order|])
  {
    hide Sum, Kept, Fitting;
    var r, kept := Sweep(ix, clock, maxBytes), Kept(ix.entries, ix.order, clock);
    KeptIsLive(ix.entries, ix.order, clock);
    KeptNoDuplicates(ix.entries, ix.order, clock);
    SuffixNoDuplicates(kept, |kept| - |r.order|);
  }

  lemma SweptIds(ix: Index, clock: Clock, maxBytes: int)
    requires Valid(ix)
    ensures NoDuplicates(Sweep(ix, clock, maxBytes).order)
    ensures forall id | id in Sweep(ix, clock, maxBytes).order :: id in ix.entries
  {
    hide Sum, Sweep, Kept;
    SweptOrder(ix, clock, maxBytes);
  }

  /** Whatever the clock does during the call, Sweep keeps the books. */
  lemma SweepKeepsValid(ix: Index, clock: Clock, maxBytes: int)
    requires Valid(ix)
    ensures Valid(Sweep(ix, clock, maxBytes))
  {
    hide Sum, Kept, Fitting, Restrict;
    var r := Sweep(ix, clock, maxBytes);
    assert r.entries == Restrict(ix.entries, r.order) && r.total == Sum(ix.entries, r.order);
    hide Sweep;
    SweptIds(ix, clock, maxBytes);
    RestrictKeys(ix.entries, r.order);
    RestrictValues(ix.entries, r.order);
  }

  lemma RestrictValues(entries: map<Id, Entry>, order: seq<Id>)
    ensures forall id | id in Restrict(entries, order) :: id in entries && Restrict(entries, order)[id] == entries[id]
  {
  }

  /** Whatever the clock does, the size limit is met afterwards or a single entry is left. */
  lemma SweepMeetsLimit(ix: Index, clock: Clock, maxBytes: int)
    requires Valid(ix)
    ensures var r := Sweep(ix, clock, maxBytes);
      r.total <= maxBytes || |r.entries| <= 1
  {
    var r := Sweep(ix, clock, maxBytes);
    FittingIsLongest(ix.entries, Kept(ix.entries, ix.order, clock), maxBytes);
    hide Sum, Kept, Fitting;
    if |r.order| <= 1 {
      AtMostOne(r.entries, r.order);
    }
  }

  lemma AtMostOne(entries: map<Id, Entry>, order: seq<Id>)
    requires |order| <= 1 && forall id | id in entries :: id in order
    ensures |entries| <= 1
  {
    if order == [] {
      assert entries.Keys == {};
    } else {
      assert entries.Keys <= {order[0]};
      SubsetSize(entries.Keys, {order[0]});
    }
    assert |entries.Keys| == |entries|;
  }

  /** Each entry is either kept or dropped, and a dropped one is dropped once. */
  lemma SweepPartitions(ix: Index, clock: Clock, maxBytes: int)
    requires Valid(ix)
    ensures var r, drop := Sweep(ix, clock, maxBytes), Dropped(ix, clock, maxBytes);
      && (forall id | id in r.entries :: id in ix.entries && r.entries[id] == ix.entries[id])
      && (forall id | id in ix.entries :: id !in r.entries <==> ix.entries[id] in drop)
      && (forall e | e in drop :: e.id in ix.entries && ix.entries[e.id] == e)
      && (forall i, j | 0 <= i < j < |drop| :: drop[i] != drop[j])
  {
    hide Sum, Kept, Fitting, Outdated, Lookup, Restrict, NoDuplicates;
    var kept, r := Kept(ix.entries, ix.order, clock), Sweep(ix, clock, maxBytes);
    var n := |kept| - |r.order|;
    SweptOrder(ix, clock, maxBytes);
    KeptIsLive(ix.entries, ix.order, clock);
    assert r.entries == Restrict(ix.entries, kept[n..]);
    assert Dropped(ix, clock, maxBytes) == Outdated(ix.entries, ix.order, clock) + Lookup(ix.entries, kept[..n]);
    hide Sweep, Dropped;
    RestrictKeys(ix.entries, kept[n..]);
    RestrictValues(ix.entries, kept[n..]);
    PartitionParts(ix, clock, kept, n);
  }

  /** The outdated entries and the oldest n of the kept ones, against the rest of the kept ones. */
  lemma PartitionParts(ix: Index, clock: Clock, kept: seq<Id>, n: nat)
    requires Valid(ix) && kept == Kept(ix.entries, ix.order, clock) && NoDuplicates(kept) && n <= |kept|
    requires forall id | id in kept :: id in ix.entries
    ensures var drop := Outdated(ix.entries, ix.order, clock) + Lookup(ix.entries, kept[..n]);
      && (forall id | id in ix.entries :: id !in kept[n..] <==> ix.entries[id] in drop)
      && (forall e | e in drop :: e.id in ix.entries && ix.entries[e.id] == e)
      && (forall i, j | 0 <= i < j < |drop| :: drop[i] != drop[j])
  {
    var out, es := Outdated(ix.entries, ix.order, clock), Lookup(ix.entries, kept[..n]);
    OutdatedOrKept(ix.entries, ix.order, clock);
    SuffixNoDuplicates(kept, n);
    assert NoDuplicates(kept[..n]);
    LookupEntries(ix.entries, kept[..n]);
    hide Kept, Outdated, Lookup, NoDuplicates, Sum;
    assert kept == kept[..n] + kept[n..];
    AppendDistinct(out, es);
  }

  lemma AppendDistinct(a: seq<Entry>, b: seq<Entry>)
    requires forall i, j | 0 <= i < j < |a| :: a[i] != a[j]
    requires forall i, j | 0 <= i < j < |b| :: b[i] != b[j]
    requires forall e | e in a :: e !in b
    ensures forall i, j | 0 <= i < j < |a + b| :: (a + b)[i] != (a + b)[j]
  {
    forall i, j | 0 <= i < j < |a + b|
      ensures (a + b)[i] != (a + b)[j]
    {
      if i < |a| <= j {
        assert (a + b)[i] == a[i] && (a + b)[j] == b[j - |a|] && a[i] in a && b[j - |a|] in b;
      }
    }
  }

  lemma LookupEntries(entries: map<Id, Entry>, order: seq<Id>)
    requires forall id | id in order :: id in entries
    requires forall id | id in entries :: entries[id].id == id
    requires NoDuplicates(order)
    ensures var es := Lookup(entries, order);
      && (forall id | id in order :: entries[id] in es)
      && (forall e | e in es :: e.id in order && entries[e.id] == e)
      && (forall i, j | 0 <= i < j < |es| :: es[i] != es[j])
  {
    var es := Lookup(entries, order);
    assert forall i | 0 <= i < |order| :: es[i] == entries[order[i]] && es[i].id == order[i];
  }

  lemma {:induction false} OutdatedOrKept(entries: map<Id, Entry>, order: seq<Id>, clock: Clock)
    requires NoDuplicates(order)
    requires forall id | id in entries :: entries[id].id == id
    ensures var out, kept := Outdated(entries, order, clock), Kept(entries, order, clock);
      && (forall e | e in out :: e.id in order && e.id in entries && entries[e.id] == e && e.id !in kept)
      && (forall id | id in order && id in entries :: id in kept || entries[id] in out)
      && (forall i, j | 0 <= i < j < |out| :: out[i] != out[j])
  {
    if order != [] {
      var last := |order| - 1;
      OutdatedOrKept(entries, order[..last], clock);
      KeptIsLive(entries, order[..last], clock);
      assert order == order[..last] + [order[last]];
      assert order[last] !in order[..last];
    }
  }

  /** The result of a Put outlives the sweep at its end, unless the clock has passed its expiry by then. */
  lemma OwnEntrySurvives(ix: Index, e: Entry, clock: Clock, maxBytes: int)
    requires Valid(ix) && e.id !in ix.entries
    ensures var r := Sweep(Register(ix, e), clock, maxBytes);
      && (e.id in r.entries <==> !Expired(e, clock(|ix.order|)))
      && (e.id in r.entries ==> r.entries[e.id] == e && r.order[|r.order| - 1] == e.id)
  {
    hide Sum, Kept, Fitting, Valid;
    var w := Register(ix, e);
    RegisterKeepsValid(ix, e);
    NotYetInOrder(ix, e);
    KeptLast(w.entries, ix.order, e.id, clock);
    SweptOrder(w, clock, maxBytes);
    FittingIsLongest(w.entries, Kept(w.entries, w.order, clock), maxBytes);
  }

  lemma NotYetInOrder(ix: Index, e: Entry)
    requires Valid(ix) && e.id !in ix.entries
    ensures e.id !in ix.order
  {
  }

  lemma KeptLast(entries: map<Id, Entry>, order: seq<Id>, id: Id, clock: Clock)
    requires id in entries && id !in order
    ensures var kept := Kept(entries, order + [id], clock);
      if Expired(entries[id], clock(|order|)) then id !in kept else kept != [] && kept[|kept| - 1] == id
  {
    assert (order + [id])[..|order|] == order;
    KeptIsLive(entries, order, clock);
  }
}
