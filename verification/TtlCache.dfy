/** internal/cache/ttl.go: entries with an expiry, deleted by whoever finds them expired. */
module TtlCache {
  import opened Wrappers

  datatype Entry<V> = Entry(val: V, expiresAt: int)

  class Cache<K(==), V> {
    const ttl: int
    var entries: map<K, Entry<V>>

    constructor (ttl: int)
      ensures this.ttl == ttl && entries == map[]
    {
      this.ttl := ttl;
      entries := map[];
    }

    /** Get with nobody else in between: an expired entry is gone afterwards. */
    method Get(k: K, now: int) returns (r: Option<V>)
      modifies this
      ensures r == if k in old(entries) && now <= old(entries)[k].expiresAt then Some(old(entries)[k].val) else None
      ensures entries == if k in old(entries) && now > old(entries)[k].expiresAt then old(entries) - {k}
                         else old(entries)
    {
      if k !in entries {
        return None;
      }
      var e := entries[k];
      if now > e.expiresAt {
        entries := Forget(entries, k, e);
        return None;
      }
      return Some(e.val);
    }

    method Set(k: K, v: V, now: int)
      modifies this
      ensures entries == old(entries)[k := Entry(v, now + ttl)]
    {
      entries := entries[k := Entry(v, now + ttl)];
    }
  }

  /** What Get answers about the entry it has found, at a later reading of the clock. */
  function Judge<V>(found: Option<Entry<V>>, now: int): Option<V> {
    if found.None? || now > found.value.expiresAt then None else Some(found.value.val)
  }

  /** The delete under the write lock, which spares an entry with another expiry. */
  function Forget<K, V>(entries: map<K, Entry<V>>, k: K, e: Entry<V>): map<K, Entry<V>> {
    if k in entries && entries[k].expiresAt == e.expiresAt then entries - {k} else entries
  }

  // ----- with other goroutines between the two locked sections of Get -----

  type Thread = nat

  /**
   A Get that has looked its key up, and one that has found an expired entry. `latest` is what a cache
   that never deletes would have found at the same moment.
   */
  datatype Pc<K, V> =
    | Looked(k: K, found: Option<Entry<V>>, latest: Option<Entry<V>>)
    | Expired(k: K, e: Entry<V>)

  /** `timed` is the cache that never deletes: the last Set for every key. */
  datatype System<!K, V> = System(
    entries: map<K, Entry<V>>, timed: map<K, Entry<V>>, clock: int, threads: map<Thread, Pc<K, V>>)

  datatype Step<K, V> =
    | Set(k: K, v: V, now: int)
    | Look(t: Thread, k: K)
    | Answer(t: Thread, now: int)
    | Delete(t: Thread)

  function Find<K, V>(m: map<K, Entry<V>>, k: K): Option<Entry<V>> {
    if k in m then Some(m[k]) else None
  }

  /** The clock never goes back. */
  ghost predicate Enabled<K, V>(s: System<K, V>, step: Step<K, V>) {
    match step
    case Set(_, _, now) => now >= s.clock
    case Look(t, _) => t !in s.threads
    case Answer(t, now) => t in s.threads && s.threads[t].Looked? && now >= s.clock
    case Delete(t) => t in s.threads && s.threads[t].Expired?
  }

  ghost function Next<K, V>(ttl: int, s: System<K, V>, step: Step<K, V>): System<K, V>
    requires Enabled(s, step)
  {
    match step
    case Set(k, v, now) =>
      var e := Entry(v, now + ttl);
      s.(entries := s.entries[k := e], timed := s.timed[k := e], clock := now)
    case Look(t, k) =>
      s.(threads := s.threads[t := Looked(k, Find(s.entries, k), Find(s.timed, k))])
    case Answer(t, now) =>
      var pc := s.threads[t];
      if pc.found.Some? && now > pc.found.value.expiresAt
      then s.(clock := now, threads := s.threads[t := Expired(pc.k, pc.found.value)])
      else s.(clock := now, threads := s.threads - {t})
    case Delete(t) =>
      var pc := s.threads[t];
      s.(entries := Forget(s.entries, pc.k, pc.e), threads := s.threads - {t})
  }

  ghost predicate Path<K, V>(ttl: int, s: System<K, V>, steps: seq<Step<K, V>>, s': System<K, V>)
    decreases |steps|
  {
    if steps == [] then s' == s
    else Enabled(s, steps[0]) && Path(ttl, Next(ttl, s, steps[0]), steps[1..], s')
  }

  /** `found` is what the cache that never deletes has, or that has expired before `clock`. */
  predicate Agrees<V(==)>(found: Option<Entry<V>>, latest: Option<Entry<V>>, clock: int) {
    found == latest || (found == None && latest.Some? && latest.value.expiresAt < clock)
  }

  ghost predicate Inv<K(!new), V>(s: System<K, V>) {
    && (forall k: K :: Agrees(Find(s.entries, k), Find(s.timed, k), s.clock))
    && (forall t | t in s.threads ::
          match s.threads[t]
          case Looked(_, found, latest) => Agrees(found, latest, s.clock)
          case Expired(_, e) => e.expiresAt < s.clock)
  }

  lemma StepKeepsInv<K(!new), V>(ttl: int, s: System<K, V>, step: Step<K, V>)
    requires Inv(s) && Enabled(s, step)
    ensures Inv(Next(ttl, s, step))
  {
    var s' := Next(ttl, s, step);
    forall k: K
      ensures Agrees(Find(s'.entries, k), Find(s'.timed, k), s'.clock)
    {
      assert Agrees(Find(s.entries, k), Find(s.timed, k), s.clock);
    }
  }

  lemma {:induction false} PathKeepsInv<K(!new), V>(ttl: int, s: System<K, V>, steps: seq<Step<K, V>>, s': System<K, V>)
    requires Inv(s) && Path(ttl, s, steps, s')
    ensures Inv(s')
    decreases |steps|
  {
    hide Inv, Enabled, Next;
    if steps != [] {
      StepKeepsInv(ttl, s, steps[0]);
      PathKeepsInv(ttl, Next(ttl, s, steps[0]), steps[1..], s');
    }
  }

  /**
   However calls interleave, Get answers what a map that never deletes would: the last Set for the key
   when the key was looked up, exactly if it has not expired when the clock is read.
   */
  lemma GetIsTransparent<K(!new), V>(ttl: int, epoch: int, steps: seq<Step<K, V>>, s: System<K, V>, t: Thread, now: int)
    requires Path(ttl, System(map[], map[], epoch, map[]), steps, s)
    requires Enabled(s, Answer(t, now))
    ensures Judge(s.threads[t].found, now) == Judge(s.threads[t].latest, now)
  {
    PathKeepsInv(ttl, System(map[], map[], epoch, map[]), steps, s);
  }

  // ----- the answer, by the calls alone -----

  predicate Sets<K(==), V>(step: Step<K, V>, k: K) {
    step.Set? && step.k == k
  }

  /** The last Set of the key among these steps had this value and read the clock at this time. */
  ghost predicate LastSet<K, V>(steps: seq<Step<K, V>>, k: K, v: V, at: int) {
    exists i :: 0 <= i < |steps| && SetsLast(steps, k, i) && steps[i].v == v && steps[i].now == at
  }

  ghost predicate SetsLast<K, V>(steps: seq<Step<K, V>>, k: K, i: int)
    requires 0 <= i < |steps|
  {
    Sets(steps[i], k) && forall j | i < j < |steps| :: !Sets(steps[j], k)
  }

  /** The entry holds what the last Set of the key brought, if there was one. */
  ghost predicate Recalls<K, V(!new)>(ttl: int, steps: seq<Step<K, V>>, k: K, e: Option<Entry<V>>) {
    && (e.None? ==> forall i | 0 <= i < |steps| :: !Sets(steps[i], k))
    && (e.Some? ==> LastSet(steps, k, e.value.val, e.value.expiresAt - ttl))
  }

  /** A goroutine that has looked a key up did so in this step, and has taken no step since. */
  ghost predicate LookedIn<K, V>(steps: seq<Step<K, V>>, t: Thread, k: K, i: int) {
    && 0 <= i < |steps| && steps[i] == Look(t, k)
    && forall j | i < j < |steps| :: steps[j].Set? || steps[j].t != t
  }

  ghost predicate Faithful<K(!new), V(!new)>(ttl: int, past: seq<Step<K, V>>, s: System<K, V>) {
    && (forall k :: Recalls(ttl, past, k, Find(s.timed, k)))
    && (forall t | t in s.threads && s.threads[t].Looked? ::
          exists i :: LookedIn(past, t, s.threads[t].k, i) &&
                      Recalls(ttl, past[..i], s.threads[t].k, s.threads[t].latest))
  }

  lemma OneMoreStep<K, V(!new)>(ttl: int, past: seq<Step<K, V>>, step: Step<K, V>, k: K, e: Option<Entry<V>>)
    requires Recalls(ttl, past, k, e)
    ensures Recalls(ttl, past + [step], k, if Sets(step, k) then Some(Entry(step.v, step.now + ttl)) else e)
  {
    var steps := past + [step];
    if Sets(step, k) {
      assert SetsLast(steps, k, |past|);
    } else if e.Some? {
      var i :| 0 <= i < |past| && SetsLast(past, k, i) &&
               past[i].v == e.value.val && past[i].now == e.value.expiresAt - ttl;
      assert SetsLast(steps, k, i);
    }
  }

  lemma StepKeepsFaithful<K(!new), V(!new)>(ttl: int, past: seq<Step<K, V>>, s: System<K, V>, step: Step<K, V>)
    requires Faithful(ttl, past, s) && Enabled(s, step)
    ensures Faithful(ttl, past + [step], Next(ttl, s, step))
  {
    var s', steps := Next(ttl, s, step), past + [step];
    forall k
      ensures Recalls(ttl, steps, k, Find(s'.timed, k))
    {
      OneMoreStep(ttl, past, step, k, Find(s.timed, k));
    }
    forall t | t in s'.threads && s'.threads[t].Looked?
      ensures exists i :: LookedIn(steps, t, s'.threads[t].k, i) &&
                          Recalls(ttl, steps[..i], s'.threads[t].k, s'.threads[t].latest)
    {
      var k := s'.threads[t].k;
      hide Recalls;
      if step == Look(t, k) {
        assert LookedIn(steps, t, k, |past|) && steps[..|past|] == past;
      } else {
        var i :| LookedIn(past, t, k, i) && Recalls(ttl, past[..i], k, s.threads[t].latest);
        assert LookedIn(steps, t, k, i) && steps[..i] == past[..i];
      }
    }
  }

  lemma {:induction false} PathKeepsFaithful<K(!new), V(!new)>(ttl: int, past: seq<Step<K, V>>, s: System<K, V>,
                                                               steps: seq<Step<K, V>>, s': System<K, V>)
    requires Faithful(ttl, past, s) && Path(ttl, s, steps, s')
    ensures Faithful(ttl, past + steps, s')
    decreases |steps|
  {
    hide Faithful, Enabled, Next;
    if steps == [] {
      assert past + steps == past;
    } else {
      StepKeepsFaithful(ttl, past, s, steps[0]);
      PathKeepsFaithful(ttl, past + [steps[0]], Next(ttl, s, steps[0]), steps[1..], s');
      assert past + [steps[0]] + steps[1..] == past + steps;
    }
  }

  /** There is one last Set at most. */
  lemma LastSetIsUnique<K, V>(steps: seq<Step<K, V>>, k: K, v: V, at: int, v': V, at': int)
    requires LastSet(steps, k, v, at) && LastSet(steps, k, v', at')
    ensures v == v' && at == at'
  {
    var i :| 0 <= i < |steps| && SetsLast(steps, k, i) && steps[i].v == v && steps[i].now == at;
    var j :| 0 <= j < |steps| && SetsLast(steps, k, j) && steps[j].v == v' && steps[j].now == at';
    assert i == j by {
      assert Sets(steps[i], k) && Sets(steps[j], k);
    }
  }

  /**
   In every interleaving Get returns a value exactly if, when it looked its key up, the last Set of the key
   had brought that value, and the clock it reads afterwards has not passed that Set's time by more than ttl.
   */
  lemma GetReturnsTheLastSet<K(!new), V(!new)>(ttl: int, epoch: int, steps: seq<Step<K, V>>, s: System<K, V>,
                                               t: Thread, now: int) returns (i: int)
    requires Path(ttl, System(map[], map[], epoch, map[]), steps, s)
    requires Enabled(s, Answer(t, now))
    ensures LookedIn(steps, t, s.threads[t].k, i)
    ensures forall v :: Judge(s.threads[t].found, now) == Some(v) <==>
              exists at :: LastSet(steps[..i], s.threads[t].k, v, at) && now <= at + ttl
  {
    var start: System<K, V> := System(map[], map[], epoch, map[]);
    PathKeepsInv(ttl, start, steps, s);
    PathKeepsFaithful(ttl, [], start, steps, s);
    assert [] + steps == steps;
    var k, found, latest := s.threads[t].k, s.threads[t].found, s.threads[t].latest;
    i :| LookedIn(steps, t, k, i) && Recalls(ttl, steps[..i], k, latest);
    forall v
      ensures Judge(found, now) == Some(v) <==> exists at :: LastSet(steps[..i], k, v, at) && now <= at + ttl
    {
      JudgeIsLastSet(ttl, steps[..i], k, found, latest, s.clock, now, v);
    }
  }

  lemma JudgeIsLastSet<K, V(!new)>(ttl: int, past: seq<Step<K, V>>, k: K, found: Option<Entry<V>>,
                                   latest: Option<Entry<V>>, clock: int, now: int, v: V)
    requires Recalls(ttl, past, k, latest) && Agrees(found, latest, clock) && clock <= now
    ensures Judge(found, now) == Some(v) <==> exists at :: LastSet(past, k, v, at) && now <= at + ttl
  {
    if latest.Some? {
      var at := latest.value.expiresAt - ttl;
      assert LastSet(past, k, latest.value.val, at);
      forall v', at' | LastSet(past, k, v', at')
        ensures v' == latest.value.val && at' == at
      {
        LastSetIsUnique(past, k, latest.value.val, at, v', at');
      }
    }
  }

  /** A delete never removes an entry that could still be returned. */
  lemma DeleteTakesOnlyExpired<K(!new), V>(ttl: int, epoch: int, steps: seq<Step<K, V>>, s: System<K, V>,
                                           t: Thread, k: K)
    requires Path(ttl, System(map[], map[], epoch, map[]), steps, s)
    requires Enabled(s, Delete(t)) && k in s.entries
    ensures k !in Next(ttl, s, Delete(t)).entries ==> s.entries[k].expiresAt < s.clock
  {
    PathKeepsInv(ttl, System(map[], map[], epoch, map[]), steps, s);
  }
}
