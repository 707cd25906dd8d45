// The time-bucketed replay cache of src/core/origin.cpp, refined to a plain set of dated nonces.
module ReplayCache {
  import opened Types
  import opened Collections

  // the cache only compares nonces, so their type N is a parameter
  datatype Entry<N> = Entry(nonce: N, tick: nat)

  // ---- the reference: one set of live entries

  // the entries after the cutoff
  ghost function Keep<N(!new)>(live: set<Entry<N>>, cutoff: nat): set<Entry<N>> { set e | e in live && e.tick > cutoff }

  ghost predicate IsOldest<N(!new)>(live: set<Entry<N>>, t: nat) {
    (exists n :: Entry(n, t) in live) && forall e | e in live :: t <= e.tick
  }

  lemma OldestExists<N(!new)>(live: set<Entry<N>>)
    requires live != {}
    ensures exists t :: IsOldest(live, t)
  {
    var e :| e in live;
    if live != {e} {
      OldestExists(live - {e});
      var t :| IsOldest(live - {e}, t);
      var n :| Entry(n, t) in live - {e};
      if e.tick < t {
        assert Entry(e.nonce, e.tick) in live;
        assert IsOldest(live, e.tick);
      } else {
        assert Entry(n, t) in live;
        assert IsOldest(live, t);
      }
    } else {
      assert Entry(e.nonce, e.tick) in live;
      assert IsOldest(live, e.tick);
    }
  }

  ghost function OldestTick<N(!new)>(live: set<Entry<N>>): (t: nat)
    requires live != {}
    ensures IsOldest(live, t)
  {
    OldestExists(live);
    var t :| IsOldest(live, t);
    t
  }

  lemma KeepSmaller<N(!new)>(live: set<Entry<N>>, t: nat)
    requires IsOldest(live, t)
    ensures |Keep(live, t)| < |live|
  {
    var n :| Entry(n, t) in live;
    Cardinality(Keep(live, t), live - {Entry(n, t)});
  }

  lemma KeepTwice<N(!new)>(live: set<Entry<N>>, c: nat, d: nat)
    requires c <= d
    ensures Keep(Keep(live, c), d) == Keep(live, d)
  {
  }

  lemma KeepAll<N(!new)>(live: set<Entry<N>>, cutoff: nat)
    requires forall e | e in live :: e.tick > cutoff
    ensures Keep(live, cutoff) == live
  {
  }

  // drop the oldest tick until at most max entries are left
  ghost function Evict<N(!new)>(live: set<Entry<N>>, max: nat): (r: set<Entry<N>>)
    ensures r <= live && |r| <= max
    decreases |live|
  {
    if |live| <= max then live
    else
      KeepSmaller(live, OldestTick(live));
      Evict(Keep(live, OldestTick(live)), max)
  }

  // nothing is pruned while the clock is still below the window
  ghost function Prune<N(!new)>(live: set<Entry<N>>, now: nat, window: nat, max: nat): set<Entry<N>> {
    if now < window then live else Evict(Keep(live, now - window), max)
  }

  ghost predicate Seen<N(!new)>(live: set<Entry<N>>, nonce: N) { exists t :: Entry(nonce, t) in live }

  ghost function Step<N(!new)>(live: set<Entry<N>>, nonce: N, now: nat, window: nat, max: nat): (set<Entry<N>>, bool) {
    var kept := Prune(live, now, window, max);
    if Seen(kept, nonce) then (kept, false) else (kept + {Entry(nonce, now)}, true)
  }

  ghost function AtLeast<N(!new)>(live: set<Entry<N>>, t: nat): set<Entry<N>> { set e | e in live && e.tick >= t }

  // eviction takes exactly the entries that have, with all of their tick and later ones, more than max beside them
  lemma {:induction false} EvictMember<N(!new)>(live: set<Entry<N>>, e: Entry<N>, max: nat)
    requires e in live
    ensures e in Evict(live, max) <==> |AtLeast(live, e.tick)| <= max
    decreases |live|
  {
    if |live| <= max {
      Cardinality(AtLeast(live, e.tick), live);
    } else {
      var t := OldestTick(live);
      if e.tick == t {
        assert AtLeast(live, e.tick) == live;
        assert Evict(live, max) <= Keep(live, t);
      } else {
        KeepSmaller(live, t);
        EvictMember(Keep(live, t), e, max);
        assert AtLeast(Keep(live, t), e.tick) == AtLeast(live, e.tick);
      }
    }
  }

  lemma PruneMember<N(!new)>(live: set<Entry<N>>, e: Entry<N>, now: nat, window: nat, max: nat)
    requires e in live
    ensures e in Prune(live, now, window, max)
       <==> (now >= window ==> now - window < e.tick && |AtLeast(live, e.tick)| <= max)
  {
    if now >= window {
      var unexpired := Keep(live, now - window);
      if e in unexpired {
        EvictMember(unexpired, e, max);
        assert AtLeast(unexpired, e.tick) == AtLeast(live, e.tick);
      }
    }
  }

  // ---- the buckets, the set and the order represent such a set

  // buckets are not empty and hold the entries of their tick
  ghost predicate InBuckets<N(!new)>(live: set<Entry<N>>, buckets: map<nat, set<N>>) {
    && (forall e | e in live :: e.tick in buckets && e.nonce in buckets[e.tick])
    && (forall t, n | t in buckets && n in buckets[t] :: Entry(n, t) in live)
    && (forall t | t in buckets :: buckets[t] != {})
  }

  // no nonce is in two buckets, and together they make the set
  ghost predicate InSet<N(!new)>(live: set<Entry<N>>, all: set<N>) {
    && (forall e | e in live :: e.nonce in all)
    && (forall n | n in all :: Seen(live, n))
    && (forall e, f | e in live && f in live && e.nonce == f.nonce :: e == f)
  }

  // the order lists the ticks of the buckets, increasing
  ghost predicate InOrder(ticks: set<nat>, order: seq<nat>) {
    if order == [] then ticks == {}
    else order[0] in ticks && (forall t | t in ticks :: order[0] <= t) && InOrder(ticks - {order[0]}, order[1..])
  }

  ghost predicate Represents<N(!new)>(live: set<Entry<N>>, buckets: map<nat, set<N>>, all: set<N>, order: seq<nat>) {
    InBuckets(live, buckets) && InSet(live, all) && InOrder(buckets.Keys, order)
  }

  // what the three structures look like in every reachable state
  lemma Structure<N(!new)>(live: set<Entry<N>>, buckets: map<nat, set<N>>, all: set<N>, order: seq<nat>)
    requires Represents(live, buckets, all, order)
    ensures forall t | t in buckets :: buckets[t] != {}
    ensures forall t, u, n | t in buckets && u in buckets && n in buckets[t] && n in buckets[u] :: t == u
    ensures forall n :: n in all <==> exists t :: t in buckets && n in buckets[t]
    ensures forall t :: t in buckets <==> t in order
    ensures forall i, j | 0 <= i < j < |order| :: order[i] < order[j]
  {
    forall t, u, n | t in buckets && u in buckets && n in buckets[t] && n in buckets[u] ensures t == u {
      assert Entry(n, t) in live && Entry(n, u) in live;
    }
    forall n | n in all ensures exists t :: t in buckets && n in buckets[t] {
      var t :| Entry(n, t) in live;
      assert t in buckets;
    }
    forall n, t | t in buckets && n in buckets[t] ensures n in all {
      assert Entry(n, t) in live;
    }
    OrderIncreases(buckets.Keys, order);
  }

  lemma {:induction false} OrderIncreases(ticks: set<nat>, order: seq<nat>)
    requires InOrder(ticks, order)
    ensures forall t :: t in ticks <==> t in order
    ensures forall i, j | 0 <= i < j < |order| :: order[i] < order[j]
  {
    if order != [] {
      OrderIncreases(ticks - {order[0]}, order[1..]);
      assert order == [order[0]] + order[1..];
      forall i, j | 0 <= i < j < |order| ensures order[i] < order[j] {
        assert order[1..][j - 1] == order[j] && order[j] in order[1..];
        if i > 0 {
          assert order[1..][i - 1] < order[1..][j - 1];
        }
      }
    }
  }

  lemma {:induction false} CountNonces<N(!new)>(live: set<Entry<N>>, all: set<N>)
    requires InSet(live, all)
    ensures |all| == |live|
    decreases |live|
  {
    if live == {} {
      assert all == {};
    } else {
      var e :| e in live;
      forall n | n in all - {e.nonce} ensures Seen(live - {e}, n) {
        var t :| Entry(n, t) in live;
        assert Entry(n, t) in live - {e};
      }
      CountNonces(live - {e}, all - {e.nonce});
    }
  }

  // the front of the order is the oldest tick
  lemma FrontIsOldest<N(!new)>(live: set<Entry<N>>, buckets: map<nat, set<N>>, order: seq<nat>)
    requires InBuckets(live, buckets) && InOrder(buckets.Keys, order)
    ensures order == [] <==> live == {}
    ensures order != [] ==> order[0] in buckets && IsOldest(live, order[0]) && OldestTick(live) == order[0]
  {
    if order != [] {
      var n :| n in buckets[order[0]];
      assert Entry(n, order[0]) in live;
      assert IsOldest(live, order[0]);
      SameOldest(live, order[0], OldestTick(live));
    }
  }

  lemma SameOldest<N(!new)>(live: set<Entry<N>>, t: nat, u: nat)
    requires IsOldest(live, t) && IsOldest(live, u)
    ensures t == u
  {
    var n :| Entry(n, t) in live;
    var m :| Entry(m, u) in live;
  }

  // popping the front bucket keeps the later entries
  lemma PopFront<N(!new)>(live: set<Entry<N>>, buckets: map<nat, set<N>>, all: set<N>, order: seq<nat>)
    requires Represents(live, buckets, all, order) && order != [] && IsOldest(live, order[0]) && order[0] in buckets
    ensures Represents(Keep(live, order[0]), buckets - {order[0]}, all - buckets[order[0]], order[1..])
  {
    var t := order[0];
    assert (buckets - {t}).Keys == buckets.Keys - {t};
    forall n | n in all - buckets[t] ensures Seen(Keep(live, t), n) {
      var u :| Entry(n, u) in live;
      assert Entry(n, u) in Keep(live, t);
    }
  }

  // a new entry goes to the bucket of the present tick
  lemma AddEntry<N(!new)>(live: set<Entry<N>>, buckets: map<nat, set<N>>, all: set<N>, order: seq<nat>, nonce: N,
                          now: nat)
    requires Represents(live, buckets, all, order) && nonce !in all && forall e | e in live :: e.tick <= now
    ensures
      var bucket := if now in buckets then buckets[now] else {};
      var order' := if now in buckets then order else order + [now];
      Represents(live + {Entry(nonce, now)}, buckets[now := bucket + {nonce}], all + {nonce}, order')
  {
    AddToBuckets(live, buckets, nonce, now);
    AddToSet(live, all, nonce, now);
    AddToOrder(live, buckets, order, nonce, now);
  }

  lemma AddToBuckets<N(!new)>(live: set<Entry<N>>, buckets: map<nat, set<N>>, nonce: N, now: nat)
    requires InBuckets(live, buckets)
    ensures
      var bucket := if now in buckets then buckets[now] else {};
      InBuckets(live + {Entry(nonce, now)}, buckets[now := bucket + {nonce}])
  {
  }

  lemma AddToSet<N(!new)>(live: set<Entry<N>>, all: set<N>, nonce: N, now: nat)
    requires InSet(live, all) && nonce !in all
    ensures InSet(live + {Entry(nonce, now)}, all + {nonce})
  {
    var live' := live + {Entry(nonce, now)};
    assert Entry(nonce, now) in live';
    forall n | n in all ensures Seen(live', n) {
      var t :| Entry(n, t) in live;
      assert Entry(n, t) in live';
    }
  }

  lemma AddToOrder<N(!new)>(live: set<Entry<N>>, buckets: map<nat, set<N>>, order: seq<nat>, nonce: N, now: nat)
    requires InBuckets(live, buckets) && InOrder(buckets.Keys, order) && forall e | e in live :: e.tick <= now
    ensures
      var bucket := if now in buckets then buckets[now] else {};
      InOrder(buckets[now := bucket + {nonce}].Keys, if now in buckets then order else order + [now])
  {
    var bucket := if now in buckets then buckets[now] else {};
    assert buckets[now := bucket + {nonce}].Keys == buckets.Keys + {now};
    forall t | t in buckets ensures t <= now {
      var n :| n in buckets[t];
      assert Entry(n, t) in live;
    }
    if now in buckets {
      assert buckets.Keys + {now} == buckets.Keys;
    } else {
      AppendTick(buckets.Keys, order, now);
    }
  }

  lemma {:induction false} AppendTick(ticks: set<nat>, order: seq<nat>, now: nat)
    requires InOrder(ticks, order) && now !in ticks && forall t | t in ticks :: t <= now
    ensures InOrder(ticks + {now}, order + [now])
  {
    if order == [] {
      assert ticks + {now} - {now} == {};
      assert ([] + [now])[1..] == [];
    } else {
      AppendTick(ticks - {order[0]}, order[1..], now);
      assert ticks + {now} - {order[0]} == ticks - {order[0]} + {now};
      assert (order + [now])[1..] == order[1..] + [now];
    }
  }

  // ---- the class

  class ReplayCache<N(==, !new)> {
    var buckets: map<nat, set<N>>
    var allNonces: set<N>
    var bucketOrder: seq<nat>
    const windowSeconds: nat
    const maxSize: nat
    // the entries the three structures stand for
    ghost var live: set<Entry<N>>

    ghost predicate Valid()
      reads this
    {
      Represents(live, buckets, allNonces, bucketOrder)
    }

    constructor (window: nat, maxSize: nat)
      ensures Valid() && live == {} && windowSeconds == window && this.maxSize == maxSize
    {
      buckets, allNonces, bucketOrder, live := map[], {}, [], {};
      windowSeconds, this.maxSize := window, maxSize;
    }

    // erase the nonces of the oldest bucket and the bucket itself
    method DropFrontBucket()
      requires Valid() && bucketOrder != []
      modifies this
      ensures Valid() && IsOldest(old(live), old(bucketOrder)[0])
      ensures live == Keep(old(live), old(bucketOrder)[0]) && |live| < |old(live)|
    {
      FrontIsOldest(live, buckets, bucketOrder);
      PopFront(live, buckets, allNonces, bucketOrder);
      KeepSmaller(live, bucketOrder[0]);
      var front := bucketOrder[0];
      if front in buckets {
        allNonces := allNonces - buckets[front];
        buckets := buckets - {front};
      }
      bucketOrder := bucketOrder[1..];
      live := Keep(live, front);
    }

    // the first pruning loop
    method DropUntil(cutoff: nat)
      requires Valid()
      modifies this
      ensures Valid() && live == Keep(old(live), cutoff)
    {
      while bucketOrder != [] && bucketOrder[0] <= cutoff
        invariant Valid() && Keep(live, cutoff) == Keep(old(live), cutoff)
        decreases |live|
      {
        KeepTwice(live, bucketOrder[0], cutoff);
        DropFrontBucket();
      }
      FrontIsOldest(live, buckets, bucketOrder);
      KeepAll(live, cutoff);
    }

    // the second pruning loop
    method DropToCapacity()
      requires Valid()
      modifies this
      ensures Valid() && live == Evict(old(live), maxSize)
    {
      CountNonces(live, allNonces);
      while |allNonces| > maxSize && bucketOrder != []
        invariant Valid() && |allNonces| == |live| && Evict(live, maxSize) == Evict(old(live), maxSize)
        decreases |live|
      {
        FrontIsOldest(live, buckets, bucketOrder);
        DropFrontBucket();
        CountNonces(live, allNonces);
      }
      FrontIsOldest(live, buckets, bucketOrder);
    }

    method PruneExpired(now: nat)
      requires Valid()
      modifies this
      ensures Valid() && live == Prune(old(live), now, windowSeconds, maxSize)
    {
      if now >= windowSeconds {
        DropUntil(now - windowSeconds);
        DropToCapacity();
      }
    }

    // add a nonce that is not there to the set and to the bucket of the present tick
    method Insert(nonce: N, tick: nat)
      requires Valid() && nonce !in allNonces && forall e | e in live :: e.tick <= tick
      modifies this
      ensures Valid() && live == old(live) + {Entry(nonce, tick)}
    {
      AddEntry(live, buckets, allNonces, bucketOrder, nonce, tick);
      allNonces := allNonces + {nonce};
      var bucket := if tick in buckets then buckets[tick] else {};
      if bucket == {} {
        bucketOrder := bucketOrder + [tick];
      }
      buckets := buckets[tick := bucket + {nonce}];
      live := live + {Entry(nonce, tick)};
    }

    method CheckAndAdd(nonce: N, tick: nat) returns (isNew: bool)
      requires Valid() && forall e | e in live :: e.tick <= tick
      modifies this
      ensures Valid() && (live, isNew) == Step(old(live), nonce, tick, windowSeconds, maxSize)
    {
      PruneExpired(tick);
      isNew := nonce !in allNonces;
      if isNew {
        Insert(nonce, tick);
      }
    }

    method PruneNow(tick: nat)
      requires Valid()
      modifies this
      ensures Valid() && live == Prune(old(live), tick, windowSeconds, maxSize)
    {
      PruneExpired(tick);
    }

    method Contains(nonce: N) returns (found: bool)
      requires Valid()
      ensures found == Seen(live, nonce)
    {
      found := nonce in allNonces;
    }

    method Size() returns (n: nat)
      requires Valid()
      ensures n == |live|
    {
      CountNonces(live, allNonces);
      n := |allNonces|;
    }
  }

  // ---- whole runs

  datatype Call<N> = Call(nonce: N, tick: nat) | PruneCall(tick: nat)

  // a call to prune adds nothing
  ghost function StepCall<N(!new)>(live: set<Entry<N>>, call: Call<N>, window: nat, max: nat): (set<Entry<N>>, bool) {
    match call
    case Call(nonce, tick) => Step(live, nonce, tick, window, max)
    case PruneCall(tick) => (Prune(live, tick, window, max), false)
  }

  // the live entries after the calls, and their answers
  ghost function Run<N(!new)>(calls: seq<Call<N>>, window: nat, max: nat): (r: (set<Entry<N>>, seq<bool>))
    ensures |r.1| == |calls|
  {
    if calls == [] then ({}, [])
    else
      var n := |calls| - 1;
      var (live, answers) := Run(calls[..n], window, max);
      var (live', isNew) := StepCall(live, calls[n], window, max);
      (live', answers + [isNew])
  }

  ghost predicate ClockRuns<N(!new)>(calls: seq<Call<N>>) {
    forall i, j | 0 <= i < j < |calls| :: calls[i].tick <= calls[j].tick
  }

  // the answer to call n
  ghost function Answer<N(!new)>(calls: seq<Call<N>>, n: nat, window: nat, max: nat): bool
    requires n < |calls|
  {
    Run(calls[..n + 1], window, max).1[n]
  }

  ghost function LiveBefore<N(!new)>(calls: seq<Call<N>>, n: nat, window: nat, max: nat): set<Entry<N>>
    requires n <= |calls|
  {
    Run(calls[..n], window, max).0
  }

  lemma RunStep<N(!new)>(calls: seq<Call<N>>, n: nat, window: nat, max: nat)
    requires n < |calls|
    ensures (LiveBefore(calls, n + 1, window, max), Answer(calls, n, window, max))
         == StepCall(LiveBefore(calls, n, window, max), calls[n], window, max)
  {
    assert calls[..n + 1][..n] == calls[..n];
  }

  // call i was accepted and is still within the window when call n is made
  ghost predicate Blocks<N(!new)>(calls: seq<Call<N>>, i: nat, n: nat, window: nat, max: nat)
    requires n < |calls|
  {
    && i < n && calls[i].Call? && calls[n].Call? && Answer(calls, i, window, max)
    && calls[i].nonce == calls[n].nonce && calls[n].tick < calls[i].tick + window
  }

  // call m finds more entries from the tick of call i on than fit
  ghost predicate Evicts<N(!new)>(calls: seq<Call<N>>, i: nat, m: nat, window: nat, max: nat)
    requires i < m < |calls|
  {
    calls[m].tick >= window && |AtLeast(LiveBefore(calls, m, window, max), calls[i].tick)| > max
  }

  // no call after i, up to n, does
  ghost predicate Held<N(!new)>(calls: seq<Call<N>>, i: nat, n: nat, window: nat, max: nat)
    requires i < n < |calls|
  {
    forall m | i < m <= n :: !Evicts(calls, i, m, window, max)
  }

  // call n finds more unexpired entries than fit, and so evicts some
  ghost predicate Overfull<N(!new)>(calls: seq<Call<N>>, n: nat, window: nat, max: nat)
    requires n < |calls|
  {
    calls[n].tick >= window && |Keep(LiveBefore(calls, n, window, max), calls[n].tick - window)| > max
  }

  // a live entry is an accepted call that was not evicted since
  lemma {:induction false} EntryOrigin<N(!new)>(calls: seq<Call<N>>, n: nat, e: Entry<N>, window: nat, max: nat)
    returns (i: nat)
    requires n <= |calls| && e in LiveBefore(calls, n, window, max)
    ensures i < n && Answer(calls, i, window, max) && calls[i] == Call(e.nonce, e.tick)
    ensures forall m | i < m < n :: !Evicts(calls, i, m, window, max)
  {
    hide Answer, LiveBefore, Prune;
    assert n > 0 by { NothingAtFirst(calls, window, max); }
    RunStep(calls, n - 1, window, max);
    var before := LiveBefore(calls, n - 1, window, max);
    if e in Prune(before, calls[n - 1].tick, window, max) {
      PruneSubset(before, calls[n - 1].tick, window, max);
      PruneMember(before, e, calls[n - 1].tick, window, max);
      i := EntryOrigin(calls, n - 1, e, window, max);
    } else {
      i := n - 1;
    }
  }

  lemma NothingAtFirst<N(!new)>(calls: seq<Call<N>>, window: nat, max: nat)
    ensures LiveBefore(calls, 0, window, max) == {}
  {
  }

  lemma PruneSubset<N(!new)>(live: set<Entry<N>>, now: nat, window: nat, max: nat)
    ensures Prune(live, now, window, max) <= live
  {
  }

  // an accepted entry stays until its window ends or a call evicts it
  lemma {:induction false} EntryStays<N(!new)>(calls: seq<Call<N>>, i: nat, n: nat, window: nat, max: nat)
    requires i < n <= |calls| && Answer(calls, i, window, max) && calls[i].Call?
    requires forall m | i < m < n :: !Evicts(calls, i, m, window, max) && calls[m].tick < calls[i].tick + window
    ensures Entry(calls[i].nonce, calls[i].tick) in LiveBefore(calls, n, window, max)
  {
    hide Answer, LiveBefore, Prune;
    RunStep(calls, n - 1, window, max);
    if i < n - 1 {
      EntryStays(calls, i, n - 1, window, max);
      assert !Evicts(calls, i, n - 1, window, max);
      var e := Entry(calls[i].nonce, calls[i].tick);
      PruneMember(LiveBefore(calls, n - 1, window, max), e, calls[n - 1].tick, window, max);
    }
  }

  // In every run: a nonce is accepted exactly when every call within the window that accepted it has been evicted.
  lemma AcceptedIffNotHeld<N(!new)>(calls: seq<Call<N>>, n: nat, window: nat, max: nat)
    requires ClockRuns(calls) && n < |calls| && calls[n].Call?
    ensures Answer(calls, n, window, max)
       <==> !exists i :: Blocks(calls, i, n, window, max) && Held(calls, i, n, window, max)
  {
    hide Answer, LiveBefore, Prune, Evicts;
    if !Answer(calls, n, window, max) {
      var i := BlockerOf(calls, n, window, max);
    }
    forall i | Blocks(calls, i, n, window, max) && Held(calls, i, n, window, max)
      ensures !Answer(calls, n, window, max)
    {
      HeldRefuses(calls, i, n, window, max);
    }
  }

  lemma BlockerOf<N(!new)>(calls: seq<Call<N>>, n: nat, window: nat, max: nat) returns (i: nat)
    requires n < |calls| && calls[n].Call? && !Answer(calls, n, window, max)
    ensures Blocks(calls, i, n, window, max) && Held(calls, i, n, window, max)
  {
    hide Answer, LiveBefore, Prune;
    RunStep(calls, n, window, max);
    var live := LiveBefore(calls, n, window, max);
    var t :| Entry(calls[n].nonce, t) in Prune(live, calls[n].tick, window, max);
    PruneSubset(live, calls[n].tick, window, max);
    PruneMember(live, Entry(calls[n].nonce, t), calls[n].tick, window, max);
    i := EntryOrigin(calls, n, Entry(calls[n].nonce, t), window, max);
  }

  lemma HeldRefuses<N(!new)>(calls: seq<Call<N>>, i: nat, n: nat, window: nat, max: nat)
    requires ClockRuns(calls) && n < |calls| && Blocks(calls, i, n, window, max) && Held(calls, i, n, window, max)
    ensures !Answer(calls, n, window, max)
  {
    hide Answer, LiveBefore, Prune;
    var live, e := LiveBefore(calls, n, window, max), Entry(calls[i].nonce, calls[i].tick);
    forall m | i < m < n ensures calls[m].tick < calls[i].tick + window {
      assert calls[m].tick <= calls[n].tick;
    }
    EntryStays(calls, i, n, window, max);
    RunStep(calls, n, window, max);
    assert !Evicts(calls, i, n, window, max);
    PruneMember(live, e, calls[n].tick, window, max);
  }

  // Between two calls for a nonce, the first accepted and none accepted in between, within the window:
  // the second is accepted too exactly when some call after the first, up to the second itself, evicts the first.
  lemma DoubleAcceptanceIsEviction<N(!new)>(calls: seq<Call<N>>, i: nat, n: nat, window: nat, max: nat)
    requires ClockRuns(calls) && n < |calls| && Blocks(calls, i, n, window, max)
    requires forall j | i < j < n ::
               calls[j].Call? && calls[j].nonce == calls[n].nonce ==> !Answer(calls, j, window, max)
    ensures Answer(calls, n, window, max) <==> exists m :: i < m <= n && Evicts(calls, i, m, window, max)
  {
    hide Answer, Evicts;
    AcceptedIffNotHeld(calls, n, window, max);
    if j: nat :| Blocks(calls, j, n, window, max) && Held(calls, j, n, window, max) {
      if j < i {
        assert calls[i].tick <= calls[n].tick;
        assert Blocks(calls, j, i, window, max) && Held(calls, j, i, window, max);
        AcceptedIffNotHeld(calls, i, window, max);
      }
    }
  }

  // a rejected call is a replay: its nonce was accepted within the window, evictions or not
  lemma RejectionIsReplay<N(!new)>(calls: seq<Call<N>>, n: nat, window: nat, max: nat)
    requires n < |calls| && calls[n].Call? && !Answer(calls, n, window, max)
    ensures exists i :: Blocks(calls, i, n, window, max)
  {
    hide Answer, Blocks;
    var i := BlockerOf(calls, n, window, max);
  }

  // a call that evicts an unexpired entry is overfull
  lemma EvictionIsOverfull<N(!new)>(calls: seq<Call<N>>, i: nat, m: nat, window: nat, max: nat)
    requires i < m < |calls| && calls[m].tick < calls[i].tick + window && Evicts(calls, i, m, window, max)
    ensures Overfull(calls, m, window, max)
  {
    hide LiveBefore;
    var live := LiveBefore(calls, m, window, max);
    Cardinality(AtLeast(live, calls[i].tick), Keep(live, calls[m].tick - window));
  }

  // without overfull calls the cache answers as the history of accepted calls does
  lemma CacheIsHistory<N(!new)>(calls: seq<Call<N>>, n: nat, window: nat, max: nat)
    requires ClockRuns(calls) && n < |calls| && calls[n].Call?
    requires forall m | 0 <= m <= n :: !Overfull(calls, m, window, max)
    ensures Answer(calls, n, window, max) <==> !exists i :: Blocks(calls, i, n, window, max)
  {
    hide Answer, Evicts, Overfull;
    AcceptedIffNotHeld(calls, n, window, max);
    forall i: nat | Blocks(calls, i, n, window, max) ensures Held(calls, i, n, window, max) {
      forall m | i < m <= n ensures !Evicts(calls, i, m, window, max) {
        assert calls[m].tick <= calls[n].tick && !Overfull(calls, m, window, max);
        if Evicts(calls, i, m, window, max) {
          EvictionIsOverfull(calls, i, m, window, max);
        }
      }
    }
  }

  // a run of at most max calls never overfills
  lemma {:induction false} ShortRunsFit<N(!new)>(calls: seq<Call<N>>, n: nat, window: nat, max: nat)
    requires n < |calls| && n <= max
    ensures |LiveBefore(calls, n, window, max)| <= n && !Overfull(calls, n, window, max)
  {
    if n > 0 {
      ShortRunsFit(calls, n - 1, window, max);
      RunStep(calls, n - 1, window, max);
      var before := LiveBefore(calls, n - 1, window, max);
      var kept := Prune(before, calls[n - 1].tick, window, max);
      assert kept <= before;
      Cardinality(kept, before);
    }
    if calls[n].tick >= window {
      Cardinality(Keep(LiveBefore(calls, n, window, max), calls[n].tick - window), LiveBefore(calls, n, window, max));
    }
  }

  // the size limit holds after every call once the clock has reached the window
  lemma SizeLimit<N(!new)>(live: set<Entry<N>>, nonce: N, now: nat, window: nat, max: nat)
    ensures now >= window ==> |Step(live, nonce, now, window, max).0| <= max + 1
    ensures now < window ==> live <= Step(live, nonce, now, window, max).0
  {
  }

  ghost function Accepted(answers: seq<bool>): nat {
    if answers == [] then 0 else Accepted(answers[..|answers| - 1]) + if answers[|answers| - 1] then 1 else 0
  }

  // before that nothing is ever dropped: every accepted nonce is still there, whatever the limit
  lemma {:induction false} UnlimitedAtFirst<N(!new)>(calls: seq<Call<N>>, window: nat, max: nat)
    requires forall c | c in calls :: c.tick < window
    ensures |Run(calls, window, max).0| == Accepted(Run(calls, window, max).1)
  {
    if calls != [] {
      var n := |calls| - 1;
      UnlimitedAtFirst(calls[..n], window, max);
      var (live, answers) := Run(calls[..n], window, max);
      var (live', isNew) := StepCall(live, calls[n], window, max);
      assert (answers + [isNew])[..n] == answers;
      assert calls[n] in calls;
      if isNew {
        assert !Seen(live, calls[n].nonce);
      }
    }
  }
}
