// The first-in first-out redemption cache of src/core/token_authenticator.cpp as a list of dated nonces, and its runs.
module RedemptionQueue {
  import opened Types

  // times are clock readings; the type N of nonces is a parameter
  datatype Entry<N> = Entry(nonce: N, time: int)

  const DEFAULT_MAX_SIZE: nat := 100000

  function Capacity(maxSize: nat): (cap: nat)
    ensures cap > 0
  {
    if maxSize > 0 then maxSize else DEFAULT_MAX_SIZE
  }

  // ---- the reference: the deque alone

  function Expire<N>(h: seq<Entry<N>>, cutoff: int): seq<Entry<N>> {
    if h != [] && h[0].time < cutoff then Expire(h[1..], cutoff) else h
  }

  function Trim<N>(h: seq<Entry<N>>, cap: nat): seq<Entry<N>> {
    if |h| >= cap && h != [] then Trim(h[1..], cap) else h
  }

  ghost predicate Seen<N>(h: seq<Entry<N>>, nonce: N) { exists i :: 0 <= i < |h| && h[i].nonce == nonce }

  ghost function AddNonce<N>(h: seq<Entry<N>>, nonce: N, now: int, window: nat, cap: nat): (seq<Entry<N>>, bool) {
    var kept := Trim(Expire(h, now - window), cap);
    if Seen(kept, nonce) then (kept, false) else (kept + [Entry(nonce, now)], true)
  }

  // nonces are distinct, times do not decrease, the size is within the capacity
  ghost predicate WellFormed<N>(h: seq<Entry<N>>, cap: nat) {
    && |h| <= cap
    && (forall i, j | 0 <= i < j < |h| :: h[i].time <= h[j].time)
    && (forall i, j | 0 <= i < j < |h| :: h[i].nonce != h[j].nonce)
  }

  ghost predicate NotAfter<N>(h: seq<Entry<N>>, now: int) { forall i | 0 <= i < |h| :: h[i].time <= now }

  // pruning keeps a suffix
  lemma {:induction false} ExpireSuffix<N>(h: seq<Entry<N>>, cutoff: int) returns (k: nat)
    ensures k <= |h| && Expire(h, cutoff) == h[k..]
    ensures forall i | 0 <= i < k :: h[i].time < cutoff
    ensures k < |h| ==> h[k].time >= cutoff
  {
    k := 0;
    if h != [] && h[0].time < cutoff {
      var m := ExpireSuffix(h[1..], cutoff);
      k := m + 1;
      assert h[1..][m..] == h[k..];
      forall i | 0 <= i < k ensures h[i].time < cutoff {
        if i > 0 {
          assert h[i] == h[1..][i - 1];
        }
      }
    }
  }

  lemma {:induction false} TrimSuffix<N>(h: seq<Entry<N>>, cap: nat)
    requires cap > 0
    ensures Trim(h, cap) == h[if |h| < cap then 0 else |h| - cap + 1..]
  {
    if |h| >= cap {
      TrimSuffix(h[1..], cap);
    }
  }

  lemma SuffixWellFormed<N>(h: seq<Entry<N>>, k: nat, cap: nat)
    requires k <= |h| && WellFormed(h, cap)
    ensures WellFormed(h[k..], cap)
  {
  }

  // what AddNonce keeps of the deque: the entries from some index on, all later ones than the dropped
  lemma KeptSuffix<N>(h: seq<Entry<N>>, now: int, window: nat, cap: nat) returns (k: nat)
    requires cap > 0
    ensures k <= |h| && Trim(Expire(h, now - window), cap) == h[k..] && |h[k..]| < cap
    ensures forall i | 0 <= i < k :: h[i].time < now - window || |h| - i >= cap
    ensures WellFormed(h, cap) ==> forall i | k <= i < |h| :: h[i].time >= now - window
  {
    var e := ExpireSuffix(h, now - window);
    TrimSuffix(h[e..], cap);
    k := if |h| - e < cap then e else |h| - cap + 1;
    assert h[e..][k - e..] == h[k..];
  }

  lemma AddKeepsWellFormed<N>(h: seq<Entry<N>>, nonce: N, now: int, window: nat, cap: nat)
    requires cap > 0 && WellFormed(h, cap) && NotAfter(h, now)
    ensures WellFormed(AddNonce(h, nonce, now, window, cap).0, cap)
    ensures NotAfter(AddNonce(h, nonce, now, window, cap).0, now)
  {
    var k := KeptSuffix(h, now, window, cap);
    SuffixWellFormed(h, k, cap);
  }

  // with the lock held, a nonce found absent is still absent when it is added
  lemma AbsentIsAdded<N>(h: seq<Entry<N>>, nonce: N, now: int, window: nat, cap: nat)
    requires cap > 0 && !Seen(h, nonce)
    ensures AddNonce(h, nonce, now, window, cap).1
  {
    var k := KeptSuffix(h, now, window, cap);
  }

  ghost function Nonces<N>(h: seq<Entry<N>>): set<N> { set i | 0 <= i < |h| :: h[i].nonce }

  ghost function Redeem<N>(h: seq<Entry<N>>, nonce: N, checked: Result<Bytes32>, now: int, window: nat,
                           cap: nat): (seq<Entry<N>>, Result<Bytes32>) {
    if Seen(h, nonce) then (h, Err(TOKEN_REPLAYED))
    else if checked.Err? then (h, checked)
    else (AddNonce(h, nonce, now, window, cap).0, checked)
  }

  lemma RemoveFirst<N>(h: seq<Entry<N>>)
    requires h != [] && forall i, j | 0 <= i < j < |h| :: h[i].nonce != h[j].nonce
    ensures Nonces(h[1..]) == Nonces(h) - {h[0].nonce}
  {
    forall n | n in Nonces(h) - {h[0].nonce} ensures n in Nonces(h[1..]) {
      var i :| 0 <= i < |h| && h[i].nonce == n;
      assert h[1..][i - 1].nonce == n;
    }
    forall n | n in Nonces(h[1..]) ensures n in Nonces(h) - {h[0].nonce} {
      var i :| 0 <= i < |h| - 1 && h[1..][i].nonce == n;
      assert h[i + 1].nonce == n;
    }
  }

  lemma AddToNonces<N>(h: seq<Entry<N>>, e: Entry<N>)
    ensures Nonces(h + [e]) == Nonces(h) + {e.nonce}
  {
    var h' := h + [e];
    assert h'[|h|] == e;
    forall n | n in Nonces(h) ensures n in Nonces(h') {
      var i :| 0 <= i < |h| && h[i].nonce == n;
      assert h'[i].nonce == n;
    }
  }

  lemma {:induction false} SizeOfNonces<N>(h: seq<Entry<N>>)
    requires forall i, j | 0 <= i < j < |h| :: h[i].nonce != h[j].nonce
    ensures |Nonces(h)| == |h|
  {
    if h == [] {
      assert Nonces(h) == {};
    } else {
      RemoveFirst(h);
      SizeOfNonces(h[1..]);
      assert h[0].nonce in Nonces(h);
    }
  }

  // ---- whole runs

  datatype Op<N> =
    | RedeemOp(nonce: N, checked: Result<Bytes32>, now: int)
    | MarkOp(nonce: N, now: int)
    | PruneOp(now: int)

  // the deque after an operation, and whether the operation added its nonce
  ghost function StepOp<N>(h: seq<Entry<N>>, op: Op<N>, window: nat, cap: nat): (seq<Entry<N>>, bool) {
    match op
    case RedeemOp(nonce, checked, now) =>
      (Redeem(h, nonce, checked, now, window, cap).0, Redeem(h, nonce, checked, now, window, cap).1.Ok?)
    case MarkOp(nonce, now) => AddNonce(h, nonce, now, window, cap)
    case PruneOp(now) => (Expire(h, now - window), false)
  }

  ghost function After<N>(ops: seq<Op<N>>, window: nat, cap: nat): seq<Entry<N>> {
    if ops == [] then [] else StepOp(After(ops[..|ops| - 1], window, cap), ops[|ops| - 1], window, cap).0
  }

  // operation n added its nonce
  ghost predicate Added<N>(ops: seq<Op<N>>, n: nat, window: nat, cap: nat)
    requires n < |ops|
  {
    StepOp(After(ops[..n], window, cap), ops[n], window, cap).1
  }

  // how many of the operations a, a + 1, ..., b - 1 added a nonce
  ghost function Additions<N>(ops: seq<Op<N>>, a: nat, b: nat, window: nat, cap: nat): nat
    requires b <= |ops|
  {
    if b <= a then 0 else Additions(ops, a, b - 1, window, cap) + if Added(ops, b - 1, window, cap) then 1 else 0
  }

  ghost predicate ClockRuns<N>(ops: seq<Op<N>>) { forall i, j | 0 <= i < j < |ops| :: ops[i].now <= ops[j].now }

  lemma AfterStep<N>(ops: seq<Op<N>>, n: nat, window: nat, cap: nat)
    requires n < |ops|
    ensures After(ops[..n + 1], window, cap) == StepOp(After(ops[..n], window, cap), ops[n], window, cap).0
  {
    assert ops[..n + 1][..n] == ops[..n];
  }

  lemma StepWellFormed<N>(h: seq<Entry<N>>, op: Op<N>, window: nat, cap: nat)
    requires cap > 0 && WellFormed(h, cap) && NotAfter(h, op.now)
    ensures var h' := StepOp(h, op, window, cap).0; WellFormed(h', cap) && NotAfter(h', op.now)
  {
    match op
    case PruneOp(now) =>
      var k := ExpireSuffix(h, now - window);
      SuffixWellFormed(h, k, cap);
    case _ =>
      AddKeepsWellFormed(h, op.nonce, op.now, window, cap);
  }

  // every reachable deque has distinct nonces, ordered times and at most cap entries
  lemma {:induction false} ReachableWellFormed<N>(ops: seq<Op<N>>, now: int, window: nat, cap: nat)
    requires cap > 0 && ClockRuns(ops) && forall i | 0 <= i < |ops| :: ops[i].now <= now
    ensures WellFormed(After(ops, window, cap), cap) && NotAfter(After(ops, window, cap), now)
  {
    if ops != [] {
      var n := |ops| - 1;
      ReachableWellFormed(ops[..n], ops[n].now, window, cap);
      StepWellFormed(After(ops[..n], window, cap), ops[n], window, cap);
    }
  }

  // operation j leaves an entry of this time with c entries behind it in the deque: one that prunes leaves it
  // unless it has expired, one that also trims leaves it if the capacity allows one entry more behind it
  ghost predicate Leaves<N>(op: Op<N>, added: bool, time: int, c: nat, window: nat, cap: nat) {
    && (op.PruneOp? || op.MarkOp? || added ==> op.now - window <= time)
    && (op.MarkOp? || added ==> c + 1 < cap)
  }

  // what a step does to the deque: it drops a prefix and adds at most one entry
  lemma StepSuffix<N>(h: seq<Entry<N>>, op: Op<N>, window: nat, cap: nat) returns (k: nat)
    requires cap > 0 && WellFormed(h, cap)
    ensures k <= |h|
    ensures var (h', added) := StepOp(h, op, window, cap);
            && h' == h[k..] + (if added then [Entry(op.nonce, op.now)] else [])
            && forall i | 0 <= i < |h| :: k <= i <==> Leaves(op, added, h[i].time, |h| - 1 - i, window, cap)
  {
    hide Expire, Trim;
    match op
    case PruneOp(now) =>
      k := ExpireSuffix(h, now - window);
    case MarkOp(nonce, now) =>
      k := KeptSuffix(h, now, window, cap);
    case RedeemOp(nonce, checked, now) =>
      k := 0;
      if !Seen(h, nonce) && checked.Ok? {
        AbsentIsAdded(h, nonce, now, window, cap);
        k := KeptSuffix(h, now, window, cap);
      }
  }

  // operation j leaves the entry that operation i added, if it is still there
  ghost predicate Spares<N>(ops: seq<Op<N>>, i: nat, j: nat, window: nat, cap: nat)
    requires i < j < |ops|
  {
    Leaves(ops[j], Added(ops, j, window, cap), ops[i].now, Additions(ops, i + 1, j, window, cap), window, cap)
  }

  // operation i added its nonce and every operation since then and before n leaves it
  ghost predicate Remembered<N>(ops: seq<Op<N>>, i: nat, n: nat, window: nat, cap: nat)
    requires i < n <= |ops|
  {
    Added(ops, i, window, cap) && forall j | i < j < n :: Spares(ops, i, j, window, cap)
  }

  // the entry that operation i added is in the deque before operation n, with as many entries behind it as were
  // added since, exactly when it is remembered; otherwise there are no more entries than were added since
  lemma {:induction false} EntryRemembered<N>(ops: seq<Op<N>>, i: nat, n: nat, window: nat, cap: nat)
    requires cap > 0 && ClockRuns(ops) && i < n <= |ops| && Added(ops, i, window, cap)
    ensures var h, c := After(ops[..n], window, cap), Additions(ops, i + 1, n, window, cap);
            && (Remembered(ops, i, n, window, cap) <==> c < |h|)
            && (c < |h| ==> h[|h| - 1 - c] == Entry(ops[i].nonce, ops[i].now))
  {
    hide After, StepOp, Leaves, WellFormed, NotAfter;
    var h := After(ops[..n - 1], window, cap);
    AfterStep(ops, n - 1, window, cap);
    ReachableWellFormed(ops[..n - 1], ops[n - 1].now, window, cap);
    var k := StepSuffix(h, ops[n - 1], window, cap);
    if i < n - 1 {
      EntryRemembered(ops, i, n - 1, window, cap);
      var c := Additions(ops, i + 1, n - 1, window, cap);
      assert c < |h| ==> (k <= |h| - 1 - c <==> Spares(ops, i, n - 1, window, cap));
      assert Remembered(ops, i, n, window, cap)
        <==> Remembered(ops, i, n - 1, window, cap) && Spares(ops, i, n - 1, window, cap);
    }
  }

  lemma NothingAtFirst<N>(ops: seq<Op<N>>, window: nat, cap: nat)
    ensures After(ops[..0], window, cap) == []
  {
  }

  lemma AddedChecked<N>(ops: seq<Op<N>>, n: nat, window: nat, cap: nat)
    requires n < |ops|
    ensures Added(ops, n, window, cap) ==> ops[n].MarkOp? || (ops[n].RedeemOp? && ops[n].checked.Ok?)
  {
  }

  // every entry was added by a mark or by a redemption whose checks passed, which is remembered
  lemma {:induction false} EntryOrigin<N>(ops: seq<Op<N>>, n: nat, p: nat, window: nat, cap: nat) returns (i: nat)
    requires cap > 0 && ClockRuns(ops) && n <= |ops| && p < |After(ops[..n], window, cap)|
    ensures i < n && (ops[i].MarkOp? || (ops[i].RedeemOp? && ops[i].checked.Ok?))
    ensures After(ops[..n], window, cap)[p] == Entry(ops[i].nonce, ops[i].now)
    ensures Remembered(ops, i, n, window, cap)
    ensures Additions(ops, i + 1, n, window, cap) == |After(ops[..n], window, cap)| - 1 - p
  {
    hide After, StepOp, Spares, Leaves, WellFormed, NotAfter;
    assert n > 0 by { NothingAtFirst(ops, window, cap); }
    var h := After(ops[..n - 1], window, cap);
    AfterStep(ops, n - 1, window, cap);
    ReachableWellFormed(ops[..n - 1], ops[n - 1].now, window, cap);
    AddedChecked(ops, n - 1, window, cap);
    var k := StepSuffix(h, ops[n - 1], window, cap);
    if k + p < |h| {
      i := EntryOrigin(ops, n - 1, k + p, window, cap);
    } else {
      i := n - 1;
    }
    EntryRemembered(ops, i, n, window, cap);
  }

  // an entry that is there before operation n, and after its pruning if it prunes, refuses operation n
  ghost predicate Refuses<N>(ops: seq<Op<N>>, i: nat, n: nat, window: nat, cap: nat)
    requires n < |ops|
  {
    && i < n && !ops[i].PruneOp? && !ops[n].PruneOp? && ops[i].nonce == ops[n].nonce
    && Remembered(ops, i, n, window, cap)
    && (ops[n].MarkOp? ==> Spares(ops, i, n, window, cap))
  }

  // the same of the entry at position p
  ghost predicate RefusesAt<N>(h: seq<Entry<N>>, p: nat, op: Op<N>, window: nat, cap: nat) {
    && p < |h| && !op.PruneOp? && h[p].nonce == op.nonce
    && (op.MarkOp? ==> Leaves(op, false, h[p].time, |h| - 1 - p, window, cap))
  }

  lemma StepRefused<N>(h: seq<Entry<N>>, op: Op<N>, window: nat, cap: nat)
    requires cap > 0 && WellFormed(h, cap) && (op.MarkOp? || (op.RedeemOp? && op.checked.Ok?))
    ensures !StepOp(h, op, window, cap).1 <==> exists p :: RefusesAt(h, p, op, window, cap)
  {
    hide Expire, Trim;
    if op.RedeemOp? && !Seen(h, op.nonce) {
      AbsentIsAdded(h, op.nonce, op.now, window, cap);
    } else if op.RedeemOp? {
      var p :| 0 <= p < |h| && h[p].nonce == op.nonce;
      assert RefusesAt(h, p, op, window, cap);
    } else {
      MarkRefused(h, op, window, cap);
    }
  }

  lemma SeenInSuffix<N>(h: seq<Entry<N>>, k: nat, p: nat)
    requires k <= p < |h|
    ensures Seen(h[k..], h[p].nonce)
  {
    assert h[k..][p - k] == h[p];
  }

  lemma MarkRefused<N>(h: seq<Entry<N>>, op: Op<N>, window: nat, cap: nat)
    requires cap > 0 && WellFormed(h, cap) && op.MarkOp?
    ensures !StepOp(h, op, window, cap).1 <==> exists p :: RefusesAt(h, p, op, window, cap)
  {
    hide Expire, Trim;
    var k := KeptSuffix(h, op.now, window, cap);
    forall p | RefusesAt(h, p, op, window, cap) ensures Seen(h[k..], op.nonce) {
      SeenInSuffix(h, k, p);
    }
    if Seen(h[k..], op.nonce) {
      var q :| 0 <= q < |h[k..]| && h[k..][q].nonce == op.nonce;
      assert RefusesAt(h, k + q, op, window, cap);
    }
  }

  lemma RefusedAt<N>(ops: seq<Op<N>>, n: nat, p: nat, window: nat, cap: nat) returns (i: nat)
    requires cap > 0 && ClockRuns(ops) && n < |ops|
    requires RefusesAt(After(ops[..n], window, cap), p, ops[n], window, cap)
    ensures Refuses(ops, i, n, window, cap)
  {
    hide After, Additions, Added;
    i := EntryOrigin(ops, n, p, window, cap);
  }

  lemma RefusesFrom<N>(ops: seq<Op<N>>, i: nat, n: nat, window: nat, cap: nat) returns (p: nat)
    requires cap > 0 && ClockRuns(ops) && n < |ops| && Refuses(ops, i, n, window, cap)
    ensures RefusesAt(After(ops[..n], window, cap), p, ops[n], window, cap)
  {
    hide After, Additions, Added;
    EntryRemembered(ops, i, n, window, cap);
    p := |After(ops[..n], window, cap)| - 1 - Additions(ops, i + 1, n, window, cap);
  }

  // A redemption whose checks pass is refused exactly when an earlier operation added its nonce and is remembered:
  // whether the nonce has expired by then does not matter. A mark first drops what it does not leave itself.
  lemma RefusedIffRemembered<N>(ops: seq<Op<N>>, n: nat, window: nat, cap: nat)
    requires cap > 0 && ClockRuns(ops) && n < |ops|
    requires ops[n].MarkOp? || (ops[n].RedeemOp? && ops[n].checked.Ok?)
    ensures !Added(ops, n, window, cap) <==> exists i :: Refuses(ops, i, n, window, cap)
  {
    hide After, StepOp, Refuses, RefusesAt, WellFormed, NotAfter;
    ReachableWellFormed(ops[..n], ops[n].now, window, cap);
    StepRefused(After(ops[..n], window, cap), ops[n], window, cap);
    if !Added(ops, n, window, cap) {
      var p :| RefusesAt(After(ops[..n], window, cap), p, ops[n], window, cap);
      var i := RefusedAt(ops, n, p, window, cap);
    }
    forall i | Refuses(ops, i, n, window, cap) ensures !Added(ops, n, window, cap) {
      var p := RefusesFrom(ops, i, n, window, cap);
    }
  }

  // without capacity pressure only pruning past the window forgets a nonce
  lemma RefusedIffNotPruned<N>(ops: seq<Op<N>>, n: nat, window: nat, cap: nat)
    requires cap > 0 && ClockRuns(ops) && n < |ops| && Additions(ops, 0, n, window, cap) < cap
    requires ops[n].RedeemOp? && ops[n].checked.Ok?
    ensures !Added(ops, n, window, cap)
       <==> exists i :: 0 <= i < n && Added(ops, i, window, cap) && ops[i].nonce == ops[n].nonce
                        && forall j | i < j < n :: Prunes(ops, j, window, cap) ==> ops[j].now - window <= ops[i].now
  {
    RefusedIffRemembered(ops, n, window, cap);
    forall i: nat | i < n && Added(ops, i, window, cap) && ops[i].nonce == ops[n].nonce
      ensures Refuses(ops, i, n, window, cap)
         <==> forall j | i < j < n :: Prunes(ops, j, window, cap) ==> ops[j].now - window <= ops[i].now
    {
      NoPressure(ops, i, n, window, cap);
    }
  }

  ghost predicate Prunes<N>(ops: seq<Op<N>>, j: nat, window: nat, cap: nat)
    requires j < |ops|
  {
    ops[j].PruneOp? || ops[j].MarkOp? || Added(ops, j, window, cap)
  }

  lemma NoPressure<N>(ops: seq<Op<N>>, i: nat, n: nat, window: nat, cap: nat)
    requires cap > 0 && i < n < |ops| && Added(ops, i, window, cap) && Additions(ops, 0, n, window, cap) < cap
    ensures Remembered(ops, i, n, window, cap)
       <==> forall j | i < j < n :: Prunes(ops, j, window, cap) ==> ops[j].now - window <= ops[i].now
  {
    hide Added;
    forall j | i < j < n
      ensures Spares(ops, i, j, window, cap) <==> (Prunes(ops, j, window, cap) ==> ops[j].now - window <= ops[i].now)
    {
      AdditionsSplit(ops, 0, i, j, window, cap);
      AdditionsSplit(ops, 0, j, n, window, cap);
    }
  }

  lemma {:induction false} AdditionsSplit<N>(ops: seq<Op<N>>, a: nat, i: nat, n: nat, window: nat, cap: nat)
    requires a <= i < n <= |ops|
    ensures Additions(ops, a, n, window, cap)
         == Additions(ops, a, i, window, cap) + (if Added(ops, i, window, cap) then 1 else 0)
            + Additions(ops, i + 1, n, window, cap)
  {
    hide Added;
    if i < n - 1 {
      AdditionsSplit(ops, a, i, n - 1, window, cap);
    }
  }

  // a nonce is added a second time while unexpired only after cap - 1 additions of other operations
  lemma DoubleRedemptionNeedsPressure<N>(ops: seq<Op<N>>, i: nat, n: nat, window: nat, cap: nat)
    requires cap > 0 && ClockRuns(ops) && i < n < |ops|
    requires Added(ops, i, window, cap) && Added(ops, n, window, cap) && ops[i].nonce == ops[n].nonce
    requires ops[n].now - window <= ops[i].now
    ensures Additions(ops, i + 1, n, window, cap) >= cap - 1
  {
    hide Added, Remembered, Spares;
    AddedChecked(ops, i, window, cap);
    AddedChecked(ops, n, window, cap);
    RefusedIffRemembered(ops, n, window, cap);
    assert !Refuses(ops, i, n, window, cap);
    if !Remembered(ops, i, n, window, cap) {
      var j := FirstForgotten(ops, i, n, window, cap);
      PressureAt(ops, i, j, n, window, cap);
    } else {
      PressureAt(ops, i, n, n, window, cap);
    }
  }

  lemma FirstForgotten<N>(ops: seq<Op<N>>, i: nat, n: nat, window: nat, cap: nat) returns (j: nat)
    requires i < n < |ops| && Added(ops, i, window, cap) && !Remembered(ops, i, n, window, cap)
    ensures i < j < n && !Spares(ops, i, j, window, cap)
  {
    hide Added, Spares;
    j :| i < j < n && !Spares(ops, i, j, window, cap);
  }

  lemma PressureAt<N>(ops: seq<Op<N>>, i: nat, j: nat, n: nat, window: nat, cap: nat)
    requires i < j <= n < |ops| && !Spares(ops, i, j, window, cap) && ops[j].now - window <= ops[i].now
    ensures Additions(ops, i + 1, n, window, cap) >= cap - 1
  {
    hide Added;
    if j < n {
      AdditionsSplit(ops, i + 1, j, n, window, cap);
    }
  }
}
