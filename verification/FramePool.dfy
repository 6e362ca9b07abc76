/**
 The idle-connection pool: three indexes that must stay one truth.

 `ConnectionPool` keeps the program's own fields (`byKey`, `byId`, `order`, `nextNo`,
 `highWater`).  `FramePoolSpec` is the reference it refines: a single insertion-ordered
 list.  Each put creates one pickup sender and one close notifier; both are named here by
 the put's insertion number, and what happens to them after the lock is released is kept
 in a log of notices.
 */
module FramePoolSpec {
  import opened Common

  datatype ConnectionMeta = ConnectionMeta(key: nat, id: int)

  /** What the pool does to the channels and the connection of one put. */
  datatype Notice =
    | PickupSent(no: nat)      // `true` sent through the pickup sender
    | CloseNotified(no: nat)   // one permit stored in the close notifier
    | SenderDropped(no: nat)   // pickup sender dropped without sending
    | ConnDropped(no: nat)     // the pool's reference to the connection dropped

  datatype Idle<S> = Idle(no: nat, key: nat, id: int, conn: S)

  /** The reference pool: idle connections, oldest first. */
  datatype Pool<S> = Pool(idle: seq<Idle<S>>, nextNo: nat, highWater: nat, log: seq<Notice>)

  function Fresh<S>(): Pool<S> {
    Pool([], 1, 0, [])
  }

  /** Position of the first idle connection of `key`, or the length of the list. */
  function FirstOfKey<S>(idle: seq<Idle<S>>, key: nat): (k: nat)
    ensures k <= |idle|
    ensures k < |idle| ==> idle[k].key == key
    ensures forall i :: 0 <= i < k ==> idle[i].key != key
  {
    if idle == [] then 0
    else if idle[0].key == key then 0
    else 1 + FirstOfKey(idle[1..], key)
  }

  /** Position of the idle connection numbered `id`, or the length of the list. */
  function FirstOfId<S>(idle: seq<Idle<S>>, id: int): (k: nat)
    ensures k <= |idle|
    ensures k < |idle| ==> idle[k].id == id
    ensures forall i :: 0 <= i < k ==> idle[i].id != id
  {
    if idle == [] then 0
    else if idle[0].id == id then 0
    else 1 + FirstOfId(idle[1..], id)
  }

  function RemoveAt<T>(s: seq<T>, k: nat): seq<T>
    requires k < |s|
  {
    s[..k] + s[k + 1..]
  }

  function SpecGet<S>(p: Pool<S>, key: nat): (Pool<S>, Option<S>) {
    var k := FirstOfKey(p.idle, key);
    if k == |p.idle| then (p, None)
    else (p.(idle := RemoveAt(p.idle, k), log := p.log + [PickupSent(p.idle[k].no)]), Some(p.idle[k].conn))
  }

  function Evicted(no: nat): seq<Notice> {
    [CloseNotified(no), SenderDropped(no), ConnDropped(no)]
  }

  function Closed(no: nat): seq<Notice> {
    [ConnDropped(no), SenderDropped(no)]
  }

  function SpecPut<S>(p: Pool<S>, size: nat, meta: ConnectionMeta, conn: S): Pool<S> {
    var offered := p.idle + [Idle(p.nextNo, meta.key, meta.id, conn)];
    var high := if |offered| > p.highWater then |offered| else p.highWater;
    if |offered| > size then Pool(offered[1..], p.nextNo + 1, high, p.log + Evicted(offered[0].no))
    else Pool(offered, p.nextNo + 1, high, p.log)
  }

  function SpecPopClosed<S>(p: Pool<S>, id: int): Pool<S> {
    var k := FirstOfId(p.idle, id);
    if k == |p.idle| then p
    else p.(idle := RemoveAt(p.idle, k), log := p.log + Closed(p.idle[k].no))
  }

  // ----- every run -----

  datatype Op<S> = Get(key: nat) | Put(meta: ConnectionMeta, conn: S) | PopClosed(meta: ConnectionMeta)

  /** What the callers must respect: put a new id, close an id under the key it was put with. */
  predicate Legal<S>(p: Pool<S>, op: Op<S>) {
    match op
    case Get(_) => true
    case Put(meta, _) => forall i :: 0 <= i < |p.idle| ==> p.idle[i].id != meta.id
    case PopClosed(meta) => forall i :: 0 <= i < |p.idle| && p.idle[i].id == meta.id ==> p.idle[i].key == meta.key
  }

  function Apply<S>(p: Pool<S>, size: nat, op: Op<S>): Pool<S> {
    match op
    case Get(key) => SpecGet(p, key).0
    case Put(meta, conn) => SpecPut(p, size, meta, conn)
    case PopClosed(meta) => SpecPopClosed(p, meta.id)
  }

  /** The pool after a run of operations from the empty pool. */
  function Run<S>(size: nat, ops: seq<Op<S>>): Pool<S> {
    if ops == [] then Fresh()
    else Apply(Run(size, ops[..|ops| - 1]), size, ops[|ops| - 1])
  }

  function Puts<S>(ops: seq<Op<S>>): nat {
    if ops == [] then 0
    else Puts(ops[..|ops| - 1]) + if ops[|ops| - 1].Put? then 1 else 0
  }

  /** The largest idle count seen right after an insertion, before trimming. */
  function PeakOffered<S>(size: nat, ops: seq<Op<S>>): nat {
    if ops == [] then 0
    else
      var before := ops[..|ops| - 1];
      var peak := PeakOffered(size, before);
      if ops[|ops| - 1].Put? then Max(peak, |Run(size, before).idle| + 1) else peak
  }

  /** The notices about one put, in order. */
  function History(log: seq<Notice>, no: nat): seq<Notice> {
    if log == [] then []
    else
      var rest := History(log[..|log| - 1], no);
      var last := log[|log| - 1];
      if last.no == no then rest + [last] else rest
  }

  /** Number of puts in 1..n whose whole history is `shape` of their own number. */
  function CountFate(log: seq<Notice>, n: nat, fate: Fate): nat {
    if n <= 1 then 0
    else CountFate(log, n - 1, fate) + if History(log, n - 1) == FateHistory(fate, n - 1) then 1 else 0
  }

  datatype Fate = StillIdle | PickedUp | WasEvicted | WasClosed

  function FateHistory(fate: Fate, no: nat): seq<Notice> {
    match fate
    case StillIdle => []
    case PickedUp => [PickupSent(no)]
    case WasEvicted => Evicted(no)
    case WasClosed => Closed(no)
  }

  predicate Pooled<S>(p: Pool<S>, no: nat) {
    exists i :: 0 <= i < |p.idle| && p.idle[i].no == no
  }

  predicate Ascending<S>(idle: seq<Idle<S>>, nextNo: nat) {
    && (forall i, j :: 0 <= i < j < |idle| ==> idle[i].no < idle[j].no)
    && (forall i :: 0 <= i < |idle| ==> 1 <= idle[i].no < nextNo)
  }

  predicate HasFate<S>(p: Pool<S>, no: nat, fate: Fate) {
    && History(p.log, no) == FateHistory(fate, no)
    && (Pooled(p, no) <==> fate == StillIdle)
  }

  predicate SomeFate<S>(p: Pool<S>, no: nat) {
    HasFate(p, no, StillIdle) || HasFate(p, no, PickedUp) || HasFate(p, no, WasEvicted) || HasFate(p, no, WasClosed)
  }

  ghost predicate ExactlyOneFate<S>(p: Pool<S>, no: nat) {
    exists f :: HasFate(p, no, f) && forall g :: HasFate(p, no, g) ==> g == f
  }

  /** Every put so far has one of the four fates; no notice speaks of a put still to come. */
  ghost predicate Settled<S>(p: Pool<S>) {
    && (forall s :: 1 <= s < p.nextNo ==> SomeFate(p, s))
    && (forall s :: p.nextNo <= s ==> History(p.log, s) == [])
  }

  ghost predicate Inv<S>(p: Pool<S>, size: nat) {
    && p.nextNo >= 1
    && Ascending(p.idle, p.nextNo)
    && |p.idle| <= size
    && Settled(p)
  }

  /** Notices about `s` alone add to the history of `s` and of no other put. */
  lemma {:induction false} HistoryOfBatch(log: seq<Notice>, batch: seq<Notice>, s: nat, t: nat)
    requires forall i :: 0 <= i < |batch| ==> batch[i].no == s
    ensures History(log + batch, t) == if t == s then History(log, t) + batch else History(log, t)
    decreases |batch|
  {
    if batch == [] {
      assert log + batch == log;
    } else {
      var front := batch[..|batch| - 1];
      assert (log + batch)[..|log + batch| - 1] == log + front;
      HistoryOfBatch(log, front, s, t);
      assert batch == front + [batch[|batch| - 1]];
    }
  }

  /** `p'` is `p` with entry `k` taken out and the notices of `fate` sent about it. */
  ghost predicate Removal<S>(p: Pool<S>, k: nat, fate: Fate, p': Pool<S>) {
    && k < |p.idle| && fate != StillIdle
    && p'.idle == RemoveAt(p.idle, k) && p'.nextNo == p.nextNo
    && p'.log == p.log + FateHistory(fate, p.idle[k].no)
  }

  lemma PooledAfterRemoval<S>(p: Pool<S>, k: nat, fate: Fate, p': Pool<S>, no: nat)
    requires Removal(p, k, fate, p') && Ascending(p.idle, p.nextNo)
    ensures Pooled(p', no) <==> Pooled(p, no) && no != p.idle[k].no
  {
    ListedAfterRemoval(p.idle, k, no);
  }

  lemma ListedAfterRemoval<S>(idle: seq<Idle<S>>, k: nat, no: nat)
    requires k < |idle| && forall i, j :: 0 <= i < j < |idle| ==> idle[i].no < idle[j].no
    ensures (exists i :: 0 <= i < |idle| - 1 && RemoveAt(idle, k)[i].no == no) <==>
            (exists i :: 0 <= i < |idle| && idle[i].no == no) && no != idle[k].no
  {
    var less := RemoveAt(idle, k);
    if i :| 0 <= i < |idle| - 1 && less[i].no == no {
      assert less[i] == idle[if i < k then i else i + 1];
    }
    if i :| 0 <= i < |idle| && idle[i].no == no && no != idle[k].no {
      assert less[if i < k then i else i - 1] == idle[i];
    }
  }

  lemma FateAfterRemoval<S>(p: Pool<S>, k: nat, fate: Fate, p': Pool<S>, no: nat)
    requires Removal(p, k, fate, p') && Ascending(p.idle, p.nextNo) && SomeFate(p, no)
    ensures SomeFate(p', no)
  {
    HistoryOfBatch(p.log, FateHistory(fate, p.idle[k].no), p.idle[k].no, no);
    PooledAfterRemoval(p, k, fate, p', no);
    if no == p.idle[k].no {
      assert Pooled(p, no);
      assert HasFate(p', no, fate);
    }
  }

  /** Taking an entry out settles that put and leaves every other fate alone. */
  lemma InvAfterRemoval<S>(p: Pool<S>, size: nat, k: nat, fate: Fate, p': Pool<S>)
    requires Inv(p, size) && Removal(p, k, fate, p')
    ensures Inv(p', size) && |p'.idle| == |p.idle| - 1
  {
    forall s | 1 <= s < p'.nextNo
      ensures SomeFate(p', s)
    {
      FateAfterRemoval(p, k, fate, p', s);
    }
    forall s | p'.nextNo <= s
      ensures History(p'.log, s) == []
    {
      HistoryOfBatch(p.log, FateHistory(fate, p.idle[k].no), p.idle[k].no, s);
    }
  }

  /** The pool right after an insertion, before any trimming. */
  function Offered<S>(p: Pool<S>, meta: ConnectionMeta, conn: S): Pool<S> {
    var list := p.idle + [Idle(p.nextNo, meta.key, meta.id, conn)];
    Pool(list, p.nextNo + 1, if |list| > p.highWater then |list| else p.highWater, p.log)
  }

  lemma InvAfterInsertion<S>(p: Pool<S>, size: nat, meta: ConnectionMeta, conn: S)
    requires Inv(p, size)
    ensures Inv(Offered(p, meta, conn), size + 1)
  {
    var p' := Offered(p, meta, conn);
    forall s | 1 <= s < p'.nextNo
      ensures SomeFate(p', s)
    {
      if s == p.nextNo {
        assert p'.idle[|p.idle|].no == s;
        assert HasFate(p', s, StillIdle);
      } else {
        assert SomeFate(p, s);
        assert forall i :: 0 <= i < |p.idle| ==> p'.idle[i] == p.idle[i];
        assert Pooled(p, s) <==> Pooled(p', s);
      }
    }
  }

  lemma ApplyKeepsInv<S>(p: Pool<S>, size: nat, op: Op<S>)
    requires size >= 1 && Inv(p, size)
    ensures Inv(Apply(p, size, op), size)
  {
    var p' := Apply(p, size, op);
    match op
    case Get(key) =>
      var k := FirstOfKey(p.idle, key);
      if k < |p.idle| {
        InvAfterRemoval(p, size, k, PickedUp, p');
      }
    case PopClosed(meta) =>
      var k := FirstOfId(p.idle, meta.id);
      if k < |p.idle| {
        InvAfterRemoval(p, size, k, WasClosed, p');
      }
    case Put(meta, conn) =>
      var offered := Offered(p, meta, conn);
      InvAfterInsertion(p, size, meta, conn);
      if |offered.idle| > size {
        assert p'.idle == RemoveAt(offered.idle, 0);
        InvAfterRemoval(offered, size + 1, 0, WasEvicted, p');
      }
  }

  /** The pool's invariant holds after every run, the idle count never exceeds the ceiling. */
  lemma {:induction false} RunInv<S>(size: nat, ops: seq<Op<S>>)
    requires size >= 1
    ensures Inv(Run(size, ops), size)
    ensures Run(size, ops).nextNo == Puts(ops) + 1
  {
    if ops != [] {
      RunInv(size, ops[..|ops| - 1]);
      ApplyKeepsInv(Run(size, ops[..|ops| - 1]), size, ops[|ops| - 1]);
    }
  }

  /** In a list of distinct ascending numbers, positions are no further apart than numbers. */
  lemma {:induction false} Spread<S>(idle: seq<Idle<S>>, nextNo: nat, i: nat, j: nat)
    requires Ascending(idle, nextNo) && i <= j < |idle|
    ensures idle[i].no + (j - i) <= idle[j].no
    decreases j
  {
    if i < j {
      Spread(idle, nextNo, i, j - 1);
    }
  }

  /** An entry is evicted only when at least `size` later puts have been made. */
  lemma {:induction false} EvictionNeedsLaterPuts<S>(size: nat, ops: seq<Op<S>>, no: nat)
    requires size >= 1
    requires 1 <= no < Run(size, ops).nextNo && HasFate(Run(size, ops), no, WasEvicted)
    ensures Puts(ops) - no >= size
  {
    RunInv(size, ops);
    if ops != [] {
      var before := ops[..|ops| - 1];
      var p := Run(size, before);
      RunInv(size, before);
      var k := Removed(p, size, ops[|ops| - 1]);
      HistoryOfRemoval(p, size, ops[|ops| - 1], no);
      if k < |p.idle| && p.idle[k].no == no {
        EvictedNow(p, size, ops[|ops| - 1], no);
      } else {
        EvictedBefore(p, size, ops[|ops| - 1], no);
        EvictionNeedsLaterPuts(size, before, no);
      }
    }
  }

  /** The operation that evicts finds a full pool, whose oldest entry has that many later ones behind it. */
  lemma EvictedNow<S>(p: Pool<S>, size: nat, op: Op<S>, no: nat)
    requires size >= 1 && Inv(p, size) && 1 <= no < p.nextNo
    requires Removed(p, size, op) < |p.idle| && p.idle[Removed(p, size, op)].no == no
    requires History(p.log, no) + FateHistory(RemovalFate(op), no) == FateHistory(WasEvicted, no)
    ensures op.Put? && p.nextNo - no >= size
  {
    assert SomeFate(p, no) && Pooled(p, no);
    Spread(p.idle, p.nextNo, 0, |p.idle| - 1);
  }

  lemma EvictedBefore<S>(p: Pool<S>, size: nat, op: Op<S>, no: nat)
    requires size >= 1 && Inv(p, size) && 1 <= no < Apply(p, size, op).nextNo
    requires History(p.log, no) == FateHistory(WasEvicted, no)
    ensures no < p.nextNo && HasFate(p, no, WasEvicted)
  {
    assert no < p.nextNo ==> SomeFate(p, no);
  }

  /** The position an operation takes out of the list, or the length of the list. */
  function Removed<S>(p: Pool<S>, size: nat, op: Op<S>): nat {
    match op
    case Get(key) => FirstOfKey(p.idle, key)
    case Put(_, _) => if |p.idle| + 1 > size then 0 else |p.idle|
    case PopClosed(meta) => FirstOfId(p.idle, meta.id)
  }

  function RemovalFate<S>(op: Op<S>): Fate {
    match op
    case Get(_) => PickedUp
    case Put(_, _) => WasEvicted
    case PopClosed(_) => WasClosed
  }

  lemma HistoryOfRemoval<S>(p: Pool<S>, size: nat, op: Op<S>, no: nat)
    requires size >= 1 && Inv(p, size)
    ensures var k := Removed(p, size, op);
            History(Apply(p, size, op).log, no) ==
            if k < |p.idle| && p.idle[k].no == no then History(p.log, no) + FateHistory(RemovalFate(op), no)
            else History(p.log, no)
  {
    var k := Removed(p, size, op);
    if k < |p.idle| {
      HistoryOfBatch(p.log, FateHistory(RemovalFate(op), p.idle[k].no), p.idle[k].no, no);
    }
  }

  /** The recorded high water is the peak offered count of the run, at most one over the ceiling. */
  lemma {:induction false} HighWaterIsPeak<S>(size: nat, ops: seq<Op<S>>)
    requires size >= 1
    ensures Run(size, ops).highWater == PeakOffered(size, ops) <= size + 1
  {
    if ops != [] {
      HighWaterIsPeak(size, ops[..|ops| - 1]);
      RunInv(size, ops[..|ops| - 1]);
    }
  }

  /** The first `m` list entries are the idle puts numbered below `n`. */
  lemma {:induction false} IdleCount<S>(p: Pool<S>, size: nat, n: nat, m: nat)
    requires Inv(p, size) && 1 <= n <= p.nextNo && m <= |p.idle|
    requires forall i :: 0 <= i < |p.idle| ==> (i < m <==> p.idle[i].no < n)
    ensures CountFate(p.log, n, StillIdle) == m
    decreases n
  {
    if n > 1 {
      assert SomeFate(p, n - 1);
      if m > 0 && p.idle[m - 1].no == n - 1 {
        assert Pooled(p, n - 1);
        IdleCount(p, size, n - 1, m - 1);
      } else {
        assert !Pooled(p, n - 1);
        IdleCount(p, size, n - 1, m);
      }
    }
  }

  lemma {:induction false} FatesPartition<S>(p: Pool<S>, size: nat, n: nat)
    requires Inv(p, size) && 1 <= n <= p.nextNo
    ensures CountFate(p.log, n, StillIdle) + CountFate(p.log, n, PickedUp)
            + CountFate(p.log, n, WasEvicted) + CountFate(p.log, n, WasClosed) == n - 1
  {
    if n > 1 {
      FatesPartition(p, size, n - 1);
      assert SomeFate(p, n - 1);
    }
  }

  lemma FateIsUnique<S>(p: Pool<S>, no: nat)
    requires SomeFate(p, no)
    ensures ExactlyOneFate(p, no)
  {
    var f := if HasFate(p, no, StillIdle) then StillIdle else if HasFate(p, no, PickedUp) then PickedUp
             else if HasFate(p, no, WasEvicted) then WasEvicted else WasClosed;
    assert HasFate(p, no, f);
    forall g | HasFate(p, no, g)
      ensures g == f
    {
      assert |FateHistory(f, no)| == |FateHistory(g, no)|;
    }
  }

  /**
   Conservation over every run: each put has exactly one fate, the entries still idle
   are exactly the list, and the puts made equal the sum of the four fates.
   */
  lemma PutsAreConserved<S>(size: nat, ops: seq<Op<S>>)
    requires size >= 1
    ensures var p := Run(size, ops);
            && (forall s :: 1 <= s <= Puts(ops) ==> ExactlyOneFate(p, s))
            && Puts(ops) == |p.idle| + CountFate(p.log, p.nextNo, PickedUp)
                            + CountFate(p.log, p.nextNo, WasEvicted) + CountFate(p.log, p.nextNo, WasClosed)
  {
    var p := Run(size, ops);
    RunInv(size, ops);
    forall s | 1 <= s <= Puts(ops)
      ensures ExactlyOneFate(p, s)
    {
      assert SomeFate(p, s);
      FateIsUnique(p, s);
    }
    IdleCount(p, size, p.nextNo, |p.idle|);
    FatesPartition(p, size, p.nextNo);
  }

  /** A run in which every operation was legal when it was made. */
  predicate LegalRun<S>(size: nat, ops: seq<Op<S>>) {
    ops == [] ||
    (LegalRun(size, ops[..|ops| - 1]) && Legal(Run(size, ops[..|ops| - 1]), ops[|ops| - 1]))
  }

  predicate DistinctIds<S>(idle: seq<Idle<S>>) {
    forall i, j :: 0 <= i < j < |idle| ==> idle[i].id != idle[j].id
  }

  lemma ApplyKeepsIdsDistinct<S>(p: Pool<S>, size: nat, op: Op<S>)
    requires DistinctIds(p.idle) && Legal(p, op)
    ensures DistinctIds(Apply(p, size, op).idle)
  {
    match op
    case Get(_) =>
    case PopClosed(_) =>
    case Put(meta, conn) =>
      assert DistinctIds(p.idle + [Idle(p.nextNo, meta.key, meta.id, conn)]);
  }

  /** After a legal run no id is pooled twice, so `pop_closed` can mean only one connection. */
  lemma {:induction false} LegalRunKeepsIdsDistinct<S>(size: nat, ops: seq<Op<S>>)
    requires LegalRun(size, ops)
    ensures DistinctIds(Run(size, ops).idle)
  {
    if ops != [] {
      LegalRunKeepsIdsDistinct(size, ops[..|ops| - 1]);
      ApplyKeepsIdsDistinct(Run(size, ops[..|ops| - 1]), size, ops[|ops| - 1]);
    }
  }

  // ----- stale closes -----

  /** The arguments of the put numbered `no`. */
  function PutArgs<S>(ops: seq<Op<S>>, no: nat): Option<(ConnectionMeta, S)> {
    if ops == [] then None
    else
      var last := ops[|ops| - 1];
      if last.Put? && Puts(ops) == no then Some((last.meta, last.conn)) else PutArgs(ops[..|ops| - 1], no)
  }

  function PutMeta<S>(ops: seq<Op<S>>, no: nat): Option<ConnectionMeta> {
    var args := PutArgs(ops, no);
    if args.Some? then Some(args.value.0) else None
  }

  lemma {:induction false} PutMetaKnown<S>(ops: seq<Op<S>>, no: nat)
    ensures PutMeta(ops, no).Some? <==> 1 <= no <= Puts(ops)
  {
    if ops != [] {
      PutMetaKnown(ops[..|ops| - 1], no);
    }
  }

  /** Every idle entry carries the arguments of its put. */
  ghost predicate ListedAsPut<S>(idle: seq<Idle<S>>, ops: seq<Op<S>>) {
    forall i :: 0 <= i < |idle| ==>
      PutArgs(ops, idle[i].no) == Some((ConnectionMeta(idle[i].key, idle[i].id), idle[i].conn))
  }

  lemma {:induction false} RunListsPuts<S>(size: nat, ops: seq<Op<S>>)
    requires size >= 1
    ensures ListedAsPut(Run(size, ops).idle, ops)
  {
    if ops != [] {
      var before := ops[..|ops| - 1];
      RunListsPuts(size, before);
      RunInv(size, before);
      ApplyListsPuts(size, before, ops);
    }
  }

  lemma ApplyListsPuts<S>(size: nat, before: seq<Op<S>>, ops: seq<Op<S>>)
    requires ops != [] && before == ops[..|ops| - 1] && ListedAsPut(Run(size, before).idle, before)
    requires Ascending(Run(size, before).idle, Run(size, before).nextNo) && Run(size, before).nextNo == Puts(before) + 1
    ensures ListedAsPut(Run(size, ops).idle, ops)
  {
    var p := Run(size, before);
    match ops[|ops| - 1]
    case Put(meta, conn) =>
      ListsOneMore(p.idle, p.nextNo, before, ops, conn);
    case Get(key) =>
      ListsTheSame(p.idle, FirstOfKey(p.idle, key), before, ops);
    case PopClosed(meta) =>
      ListsTheSame(p.idle, FirstOfId(p.idle, meta.id), before, ops);
  }

  lemma ListsOneMore<S>(idle: seq<Idle<S>>, no: nat, before: seq<Op<S>>, ops: seq<Op<S>>, conn: S)
    requires ops != [] && before == ops[..|ops| - 1] && ops[|ops| - 1].Put? && no == Puts(before) + 1
    requires ListedAsPut(idle, before) && Ascending(idle, no)
    requires conn == ops[|ops| - 1].conn
    ensures var meta := ops[|ops| - 1].meta;
            var offered := idle + [Idle(no, meta.key, meta.id, conn)];
            ListedAsPut(offered, ops) && ListedAsPut(offered[1..], ops)
  {
    var meta := ops[|ops| - 1].meta;
    var offered := idle + [Idle(no, meta.key, meta.id, conn)];
    forall i | 0 <= i < |offered|
      ensures PutArgs(ops, offered[i].no) == Some((ConnectionMeta(offered[i].key, offered[i].id), offered[i].conn))
    {
    }
  }

  lemma ListsTheSame<S>(idle: seq<Idle<S>>, k: nat, before: seq<Op<S>>, ops: seq<Op<S>>)
    requires ops != [] && before == ops[..|ops| - 1] && !ops[|ops| - 1].Put? && ListedAsPut(idle, before)
    ensures ListedAsPut(idle, ops) && (k < |idle| ==> ListedAsPut(RemoveAt(idle, k), ops))
  {
    assert forall no :: PutArgs(ops, no) == PutArgs(before, no);
  }

  // ----- what a checkout answers -----

  /** Put `no` was made under `key` and nothing has happened to it since. */
  predicate Waiting<S>(size: nat, ops: seq<Op<S>>, key: nat, no: nat) {
    && PutArgs(ops, no).Some? && PutArgs(ops, no).value.0.key == key
    && HasFate(Run(size, ops), no, StillIdle)
  }

  ghost predicate OldestWaiting<S>(size: nat, ops: seq<Op<S>>, key: nat, no: nat) {
    Waiting(size, ops, key, no) && forall m :: Waiting(size, ops, key, m) ==> no <= m
  }

  /** `answer` is the connection of the oldest put waiting under `key`, and nothing exactly when none waits. */
  ghost predicate OldestAnswer<S>(size: nat, ops: seq<Op<S>>, key: nat, answer: Option<S>) {
    && (answer.Some? <==> exists no :: Waiting(size, ops, key, no))
    && (answer.Some? ==>
          exists no :: OldestWaiting(size, ops, key, no) && answer == Some(PutArgs(ops, no).value.1))
  }

  lemma WaitingIsListed<S>(size: nat, ops: seq<Op<S>>, key: nat, no: nat)
    requires size >= 1
    ensures Waiting(size, ops, key, no) <==>
            exists i :: 0 <= i < |Run(size, ops).idle| && Run(size, ops).idle[i].no == no
                        && Run(size, ops).idle[i].key == key
  {
    var p := Run(size, ops);
    RunInv(size, ops);
    RunListsPuts(size, ops);
    PutMetaKnown(ops, no);
    if i :| 0 <= i < |p.idle| && p.idle[i].no == no {
      assert Pooled(p, no) && SomeFate(p, no);
    }
  }

  lemma FirstIsOldest<S>(size: nat, ops: seq<Op<S>>, key: nat, no: nat)
    requires size >= 1 && Waiting(size, ops, key, no)
    ensures var p := Run(size, ops);
            var k := FirstOfKey(p.idle, key);
            k < |p.idle| && p.idle[k].no <= no
  {
    RunInv(size, ops);
    WaitingIsListed(size, ops, key, no);
  }

  lemma FirstOfKeyWaits<S>(size: nat, ops: seq<Op<S>>, key: nat)
    requires size >= 1
    ensures var p := Run(size, ops);
            var k := FirstOfKey(p.idle, key);
            if k < |p.idle| then OldestWaiting(size, ops, key, p.idle[k].no)
            else forall no :: !Waiting(size, ops, key, no)
  {
    var p := Run(size, ops);
    var k := FirstOfKey(p.idle, key);
    forall no | Waiting(size, ops, key, no)
      ensures k < |p.idle| && p.idle[k].no <= no
    {
      FirstIsOldest(size, ops, key, no);
    }
    if k < |p.idle| {
      WaitingIsListed(size, ops, key, p.idle[k].no);
    }
  }

  /** After every run a checkout answers the oldest connection put under its key and not yet gone, if there is one. */
  lemma GetAnswersOldest<S>(size: nat, ops: seq<Op<S>>, key: nat)
    requires size >= 1
    ensures OldestAnswer(size, ops, key, SpecGet(Run(size, ops), key).1)
  {
    var p := Run(size, ops);
    var k := FirstOfKey(p.idle, key);
    FirstOfKeyWaits(size, ops, key);
    RunListsPuts(size, ops);
    if k < |p.idle| {
      assert Waiting(size, ops, key, p.idle[k].no);
      assert PutArgs(ops, p.idle[k].no).value.1 == p.idle[k].conn;
    }
  }

  lemma FatesAfterRemoval<S>(p: Pool<S>, size: nat, k: nat, fate: Fate, p': Pool<S>, m: nat, f: Fate)
    requires Inv(p, size) && Removal(p, k, fate, p') && m != p.idle[k].no
    ensures HasFate(p', m, f) <==> HasFate(p, m, f)
  {
    PooledAfterRemoval(p, k, fate, p', m);
    HistoryOfBatch(p.log, FateHistory(fate, p.idle[k].no), p.idle[k].no, m);
  }

  lemma RemovedHasFate<S>(p: Pool<S>, size: nat, k: nat, fate: Fate, p': Pool<S>)
    requires Inv(p, size) && Removal(p, k, fate, p')
    ensures HasFate(p', p.idle[k].no, fate)
  {
    var no := p.idle[k].no;
    assert Pooled(p, no) && SomeFate(p, no);
    PooledAfterRemoval(p, k, fate, p', no);
    HistoryOfBatch(p.log, FateHistory(fate, no), no, no);
  }

  /** The put a checkout answers is picked up, and no other put's fate changes. */
  lemma GetPicksUp<S>(size: nat, ops: seq<Op<S>>, key: nat, no: nat)
    requires size >= 1 && OldestWaiting(size, ops, key, no)
    ensures HasFate(Run(size, ops + [Get(key)]), no, PickedUp)
    ensures forall m, f :: m != no ==> (HasFate(Run(size, ops + [Get(key)]), m, f) <==> HasFate(Run(size, ops), m, f))
  {
    var p := Run(size, ops);
    var k := FirstOfKey(p.idle, key);
    RunSnoc(size, ops, Get(key));
    var p' := Run(size, ops + [Get(key)]);
    RunInv(size, ops);
    FirstOfKeyWaits(size, ops, key);
    assert p.idle[k].no == no && Removal(p, k, PickedUp, p');
    RemovedHasFate(p, size, k, PickedUp, p');
    forall m, f | m != no
      ensures HasFate(p', m, f) <==> HasFate(p, m, f)
    {
      FatesAfterRemoval(p, size, k, PickedUp, p', m, f);
    }
  }

  /** No two puts use the same id; the program's counter sees to that until it wraps. */
  ghost predicate DistinctPuts<S>(ops: seq<Op<S>>) {
    forall a, b :: 1 <= a < b <= Puts(ops) && PutMeta(ops, a).Some? && PutMeta(ops, b).Some? ==>
      PutMeta(ops, a).value.id != PutMeta(ops, b).value.id
  }

  /** With distinct ids, closing the meta of put `no` removes that put or nothing, however late the close comes. */
  lemma StaleCloseIsHarmless<S>(size: nat, ops: seq<Op<S>>, no: nat, meta: ConnectionMeta)
    requires size >= 1 && DistinctPuts(ops) && PutMeta(ops, no) == Some(meta)
    ensures var p := Run(size, ops);
            var k := FirstOfId(p.idle, meta.id);
            && (k < |p.idle| <==> Pooled(p, no))
            && (k < |p.idle| ==> p.idle[k].no == no)
            && SpecPopClosed(p, meta.id) ==
               if Pooled(p, no) then p.(idle := RemoveAt(p.idle, k), log := p.log + Closed(no)) else p
  {
    var p := Run(size, ops);
    var k := FirstOfId(p.idle, meta.id);
    RunListsPuts(size, ops);
    PutMetaKnown(ops, no);
    forall i | 0 <= i < |p.idle|
      ensures p.idle[i].id == meta.id <==> p.idle[i].no == no
    {
      PutMetaKnown(ops, p.idle[i].no);
    }
  }

  lemma RunSnoc<S>(size: nat, ops: seq<Op<S>>, op: Op<S>)
    ensures Run(size, ops + [op]) == Apply(Run(size, ops), size, op)
    ensures LegalRun(size, ops + [op]) <==> LegalRun(size, ops) && Legal(Run(size, ops), op)
  {
    assert (ops + [op])[..|ops|] == ops;
  }

  /** An id put, picked up and put again under the same key. */
  function Reused<S>(meta: ConnectionMeta, first: S, second: S): seq<Op<S>> {
    [Put(meta, first)] + [Get(meta.key)] + [Put(meta, second)]
  }

  lemma ReusedRun<S>(size: nat, meta: ConnectionMeta, first: S, second: S)
    requires size >= 1
    ensures LegalRun(size, Reused(meta, first, second))
    ensures Run(size, Reused(meta, first, second)) == Pool([Idle(2, meta.key, meta.id, second)], 3, 1, [PickupSent(1)])
  {
    var l1: seq<Op<S>> := [Put(meta, first)];
    var l2 := l1 + [Get(meta.key)];
    RunSnoc(size, [], Put(meta, first));
    assert [] + l1 == l1;
    assert Run(size, l1) == Pool([Idle(1, meta.key, meta.id, first)], 2, 1, []);
    RunSnoc(size, l1, Get(meta.key));
    assert Run(size, l2) == Pool([], 2, 1, [PickupSent(1)]);
    RunSnoc(size, l2, Put(meta, second));
  }

  /** With an id used again under the same key, the late close of the first put removes the second one. */
  lemma StaleCloseHitsNewer<S>(size: nat, meta: ConnectionMeta, first: S, second: S)
    requires size >= 1
    ensures var ops := Reused(meta, first, second) + [PopClosed(meta)];
            var p := Run(size, ops);
            && LegalRun(size, ops) && p.idle == []
            && History(p.log, 1) == [PickupSent(1)] && History(p.log, 2) == Closed(2)
  {
    var reused := Reused(meta, first, second);
    ReusedRun(size, meta, first, second);
    RunSnoc(size, reused, PopClosed(meta));
    assert Run(size, reused + [PopClosed(meta)]).log == [PickupSent(1)] + Closed(2);
    PickupThenClose();
  }

  lemma PickupThenClose()
    ensures var log := [PickupSent(1)] + Closed(2);
            History(log, 1) == [PickupSent(1)] && History(log, 2) == Closed(2)
  {
    HistoryOfBatch([PickupSent(1)], Closed(2), 2, 1);
    HistoryOfBatch([PickupSent(1)], Closed(2), 2, 2);
    assert [PickupSent(1)][..0] == [];
  }

  /** A call that uses a new id, or closes an id under the key it was put with. */
  ghost predicate Honest<S>(before: seq<Op<S>>, op: Op<S>) {
    match op
    case Get(_) => true
    case Put(meta, _) => forall no :: PutMeta(before, no).Some? ==> PutMeta(before, no).value.id != meta.id
    case PopClosed(meta) =>
      forall no :: PutMeta(before, no).Some? && PutMeta(before, no).value.id == meta.id ==>
        PutMeta(before, no).value.key == meta.key
  }

  ghost predicate HonestRun<S>(ops: seq<Op<S>>) {
    ops == [] || (HonestRun(ops[..|ops| - 1]) && Honest(ops[..|ops| - 1], ops[|ops| - 1]))
  }

  lemma HonestIsLegal<S>(p: Pool<S>, before: seq<Op<S>>, op: Op<S>)
    requires ListedAsPut(p.idle, before) && Honest(before, op)
    ensures Legal(p, op)
  {
    assert forall i :: 0 <= i < |p.idle| ==>
        PutMeta(before, p.idle[i].no) == Some(ConnectionMeta(p.idle[i].key, p.idle[i].id));
  }

  /** Such runs respect both preconditions at every call, and their ids are distinct. */
  lemma {:induction false} HonestRunsAreLegal<S>(size: nat, ops: seq<Op<S>>)
    requires size >= 1 && HonestRun(ops)
    ensures LegalRun(size, ops) && DistinctPuts(ops)
  {
    if ops != [] {
      var before := ops[..|ops| - 1];
      HonestRunsAreLegal(size, before);
      RunListsPuts(size, before);
      HonestIsLegal(Run(size, before), before, ops[|ops| - 1]);
      forall a, b | 1 <= a < b <= Puts(ops) && PutMeta(ops, a).Some? && PutMeta(ops, b).Some?
        ensures PutMeta(ops, a).value.id != PutMeta(ops, b).value.id
      {
        PutMetaKnown(before, a);
        PutMetaKnown(before, b);
      }
    }
  }
}

module FramePool {
  import opened Common
  import opened FramePoolSpec

  /** A pooled connection; `ticket` names the pickup sender and close notifier of its put. */
  datatype Entry<S> = Entry(conn: S, ticket: nat, id: int)

  type Order = map<nat, ConnectionMeta>
  type Node<S> = map<nat, Entry<S>>

  /** What the lock guards: insertion counter, the three indexes, the high-water mark. */
  datatype Inner<S> = Inner(nextNo: nat, byKey: map<nat, Node<S>>, byId: map<int, nat>, order: Order, highWater: nat)

  /** What `byKey` holds for a key and an insertion number. */
  function Cell<S>(byKey: map<nat, Node<S>>, key: nat, no: nat): Option<Entry<S>> {
    if key in byKey && no in byKey[key] then Some(byKey[key][no]) else None
  }

  ghost predicate NoEmptyNode<S>(byKey: map<nat, Node<S>>) {
    forall k :: k in byKey ==> |byKey[k]| != 0
  }

  function FlatCell<S>(flat: map<nat, Idle<S>>, key: nat, no: nat): Option<Entry<S>> {
    if no in flat && flat[no].key == key then Some(Entry(flat[no].conn, no, flat[no].id)) else None
  }

  /** `byKey` holds exactly the connections of `flat`, under their keys, and no empty node. */
  ghost predicate KeysMirror<S>(flat: map<nat, Idle<S>>, byKey: map<nat, Node<S>>) {
    && NoEmptyNode(byKey)
    && (forall k, s :: Cell(byKey, k, s) == FlatCell(flat, k, s))
  }

  /** `byId` is the inverse of the ids of `flat`. */
  ghost predicate IdsMirror<S>(flat: map<nat, Idle<S>>, byId: map<int, nat>) {
    && (forall s :: s in flat ==> flat[s].id in byId && byId[flat[s].id] == s)
    && (forall id :: id in byId ==> byId[id] in flat && flat[byId[id]].id == id)
  }

  ghost predicate OrderMirrors<S>(flat: map<nat, Idle<S>>, order: Order) {
    && flat.Keys == order.Keys
    && (forall s :: s in flat ==> flat[s].no == s && order[s] == ConnectionMeta(flat[s].key, flat[s].id))
  }

  ghost predicate Below<S>(flat: map<nat, Idle<S>>, nextNo: nat) {
    nextNo >= 1 && forall s :: s in flat ==> 1 <= s < nextNo
  }

  /** The three indexes all describe the connections `flat`. */
  ghost predicate Mirror<S>(flat: map<nat, Idle<S>>, g: Inner<S>) {
    Below(flat, g.nextNo) && OrderMirrors(flat, g.order) && KeysMirror(flat, g.byKey) && IdsMirror(flat, g.byId)
  }

  /** Some set of connections explains all three indexes. */
  ghost predicate IndexesAgree<S(!new)>(g: Inner<S>) {
    exists flat :: Mirror(flat, g)
  }

  /** The connections numbered below `n`, oldest first. */
  ghost function Listed<S>(flat: map<nat, Idle<S>>, n: nat): seq<Idle<S>> {
    if n == 0 then [] else Listed(flat, n - 1) + if n - 1 in flat then [flat[n - 1]] else []
  }

  ghost predicate Numbered<S>(flat: map<nat, Idle<S>>) {
    forall s :: s in flat ==> flat[s].no == s
  }

  lemma {:induction false} ListedIsFlat<S>(flat: map<nat, Idle<S>>, n: nat)
    requires Numbered(flat)
    ensures forall i :: 0 <= i < |Listed(flat, n)| ==>
              Listed(flat, n)[i].no < n && Listed(flat, n)[i].no in flat
                  && flat[Listed(flat, n)[i].no] == Listed(flat, n)[i]
  {
    if n > 0 {
      ListedIsFlat(flat, n - 1);
    }
  }

  lemma {:induction false} ListedFrame<S>(flat: map<nat, Idle<S>>, other: map<nat, Idle<S>>, n: nat)
    requires forall s :: s < n ==> (s in flat <==> s in other) && (s in flat ==> flat[s] == other[s])
    ensures Listed(flat, n) == Listed(other, n)
  {
    if n > 0 {
      ListedFrame(flat, other, n - 1);
    }
  }

  /** Removing number `s` takes out the entry that follows those numbered below `s`. */
  lemma {:induction false} ListedWithout<S>(flat: map<nat, Idle<S>>, s: nat, n: nat)
    requires s in flat && s < n
    ensures |Listed(flat, s)| < |Listed(flat, n)|
    ensures Listed(flat, n)[|Listed(flat, s)|] == flat[s]
    ensures Listed(flat, n)[..|Listed(flat, s)|] == Listed(flat, s)
    ensures Listed(flat - {s}, n) == RemoveAt(Listed(flat, n), |Listed(flat, s)|)
  {
    if n == s + 1 {
      ListedFrame(flat, flat - {s}, s);
    } else {
      ListedWithout(flat, s, n - 1);
    }
  }

  lemma {:induction false} ListedSize<S>(flat: map<nat, Idle<S>>, n: nat)
    ensures |Listed(flat, n)| == |set s | s in flat && s < n|
  {
    var below := set s | s in flat && s < n;
    if n == 0 {
      assert below == {};
    } else {
      ListedSize(flat, n - 1);
      var shorter := set s | s in flat && s < n - 1;
      assert below == if n - 1 in flat then shorter + {n - 1} else shorter;
    }
  }

  lemma {:induction false} HasMin(keys: set<nat>)
    requires keys != {}
    ensures exists m :: IsMin(keys, m)
  {
    var x :| x in keys;
    var rest := keys - {x};
    if rest == {} {
      assert keys == {x};
      assert IsMin(keys, x);
    } else {
      HasMin(rest);
      var m :| IsMin(rest, m);
      assert keys == rest + {x};
      assert IsMin(keys, if m < x then m else x);
    }
  }

  predicate IsMin(keys: set<nat>, m: nat) {
    m in keys && forall t :: t in keys ==> m <= t
  }

  /** `byKey'` holds what `byKey` holds, except that cell `key`, `no` is `e`. */
  ghost predicate CellSet<S>(byKey: map<nat, Node<S>>, key: nat, no: nat, e: Option<Entry<S>>,
                             byKey': map<nat, Node<S>>)
  {
    && NoEmptyNode(byKey')
    && (forall k, s :: Cell(byKey', k, s) == if k == key && s == no then e else Cell(byKey, k, s))
  }

  /** `g'` is `g` with number `no` gone from all three indexes. */
  ghost predicate Gone<S>(g: Inner<S>, no: nat, g': Inner<S>) {
    && no in g.order
    && g'.order == g.order - {no} && g'.byId == g.byId - {g.order[no].id}
    && CellSet(g.byKey, g.order[no].key, no, None, g'.byKey) && g'.nextNo == g.nextNo
  }

  lemma IdsMirrorWithout<S>(flat: map<nat, Idle<S>>, byId: map<int, nat>, no: nat)
    requires IdsMirror(flat, byId) && no in flat
    ensures IdsMirror(flat - {no}, byId - {flat[no].id})
  {
  }

  lemma OrderMirrorsWithout<S>(flat: map<nat, Idle<S>>, order: Order, no: nat)
    requires OrderMirrors(flat, order)
    ensures OrderMirrors(flat - {no}, order - {no})
  {
  }

  /** Dropping one number from all three indexes keeps them in agreement. */
  lemma MirrorWithout<S>(flat: map<nat, Idle<S>>, g: Inner<S>, no: nat, g': Inner<S>)
    requires Mirror(flat, g) && Gone(g, no, g')
    ensures no in flat && Cell(g.byKey, flat[no].key, no) == Some(Entry(flat[no].conn, no, flat[no].id))
    ensures Mirror(flat - {no}, g')
  {
    assert Cell(g.byKey, flat[no].key, no) == FlatCell(flat, flat[no].key, no);
    assert KeysMirror(flat - {no}, g'.byKey);
    IdsMirrorWithout(flat, g.byId, no);
    OrderMirrorsWithout(flat, g.order, no);
  }

  lemma IdsMirrorWith<S>(flat: map<nat, Idle<S>>, byId: map<int, nat>, x: Idle<S>)
    requires IdsMirror(flat, byId) && x.no !in flat && x.id !in byId
    ensures IdsMirror(flat[x.no := x], byId[x.id := x.no])
  {
  }

  lemma OrderMirrorsWith<S>(flat: map<nat, Idle<S>>, order: Order, x: Idle<S>)
    requires OrderMirrors(flat, order)
    ensures OrderMirrors(flat[x.no := x], order[x.no := ConnectionMeta(x.key, x.id)])
  {
  }

  /** `g'` is `g` with connection `x` entered in all three indexes. */
  ghost predicate Entered<S>(g: Inner<S>, x: Idle<S>, g': Inner<S>) {
    && x.no == g.nextNo && g'.nextNo == g.nextNo + 1
    && g'.order == g.order[x.no := ConnectionMeta(x.key, x.id)] && g'.byId == g.byId[x.id := x.no]
    && CellSet(g.byKey, x.key, x.no, Some(Entry(x.conn, x.no, x.id)), g'.byKey)
  }

  /** Adding a fresh number and id to all three indexes keeps them in agreement. */
  lemma MirrorWith<S>(flat: map<nat, Idle<S>>, g: Inner<S>, x: Idle<S>, g': Inner<S>)
    requires Mirror(flat, g) && x.id !in g.byId && Entered(g, x, g')
    ensures Mirror(flat[x.no := x], g')
  {
    assert KeysMirror(flat[x.no := x], g'.byKey);
    IdsMirrorWith(flat, g.byId, x);
    OrderMirrorsWith(flat, g.order, x);
  }

  /** Number `no` stands in the list right after the connections numbered below it. */
  lemma ListedRemoval<S>(flat: map<nat, Idle<S>>, n: nat, no: nat)
    requires Numbered(flat) && no in flat && no < n
    ensures var all := Listed(flat, n);
            var k := |Listed(flat, no)|;
            && k < |all| && all[k] == flat[no]
            && (forall i :: 0 <= i < k ==> all[i].no < no && all[i].no in flat && flat[all[i].no] == all[i])
            && Listed(flat - {no}, n) == RemoveAt(all, k)
  {
    ListedWithout(flat, no, n);
    ListedIsFlat(flat, no);
    assert forall i :: 0 <= i < |Listed(flat, no)| ==> Listed(flat, n)[i] == Listed(flat, no)[i];
  }

  lemma OldestOfKeyIsFirst<S>(flat: map<nat, Idle<S>>, byKey: map<nat, Node<S>>, n: nat, key: nat, no: nat)
    requires Numbered(flat) && KeysMirror(flat, byKey) && key in byKey && IsMin(byKey[key].Keys, no)
    requires no in flat && flat[no].key == key && no < n
    ensures var all := Listed(flat, n);
            var k := FirstOfKey(all, key);
            k < |all| && all[k] == flat[no] && Listed(flat - {no}, n) == RemoveAt(all, k)
  {
    ListedRemoval(flat, n, no);
    var all := Listed(flat, n);
    forall i | 0 <= i < |Listed(flat, no)|
      ensures all[i].key != key
    {
      assert Cell(byKey, all[i].key, all[i].no).Some?;
    }
    assert FirstOfKey(all, key) == |Listed(flat, no)|;
  }

  lemma NoneOfId<S>(flat: map<nat, Idle<S>>, byId: map<int, nat>, n: nat, id: int)
    requires Numbered(flat) && IdsMirror(flat, byId) && id !in byId
    ensures FirstOfId(Listed(flat, n), id) == |Listed(flat, n)|
  {
    ListedIsFlat(flat, n);
  }

  lemma NoneOfKey<S>(flat: map<nat, Idle<S>>, byKey: map<nat, Node<S>>, n: nat, key: nat)
    requires Numbered(flat) && KeysMirror(flat, byKey) && key !in byKey
    ensures FirstOfKey(Listed(flat, n), key) == |Listed(flat, n)|
  {
    ListedIsFlat(flat, n);
    var all := Listed(flat, n);
    forall i | 0 <= i < |all|
      ensures all[i].key != key
    {
      assert Cell(byKey, all[i].key, all[i].no).Some?;
    }
  }

  /** Taking the oldest connection of a key out of the indexes takes the first of that key out of the list. */
  lemma TakeOldestOfKey<S>(flat: map<nat, Idle<S>>, g: Inner<S>, key: nat, no: nat, g': Inner<S>)
    requires Mirror(flat, g) && key in g.byKey && IsMin(g.byKey[key].Keys, no)
    requires no in g.order ==> Gone(g, no, g')
    ensures no in flat && g.byKey[key][no] == Entry(flat[no].conn, no, flat[no].id)
            && g.order[no] == ConnectionMeta(key, flat[no].id)
    ensures Mirror(flat - {no}, g')
    ensures var all := Listed(flat, g.nextNo);
            var k := FirstOfKey(all, key);
            k < |all| && all[k] == flat[no] && Listed(flat - {no}, g.nextNo) == RemoveAt(all, k)
  {
    assert Cell(g.byKey, key, no).Some?;
    MirrorWithout(flat, g, no, g');
    OldestOfKeyIsFirst(flat, g.byKey, g.nextNo, key, no);
  }

  /** Taking a connection out by id takes the first of that id out of the list. */
  lemma TakeById<S>(flat: map<nat, Idle<S>>, g: Inner<S>, id: int, g': Inner<S>)
    requires Mirror(flat, g) && id in g.byId && Gone(g, g.byId[id], g')
    ensures Mirror(flat - {g.byId[id]}, g')
    ensures var no := g.byId[id];
            var all := Listed(flat, g.nextNo);
            var k := FirstOfId(all, id);
            k < |all| && all[k].no == no && Listed(flat - {no}, g.nextNo) == RemoveAt(all, k)
  {
    var no := g.byId[id];
    MirrorWithout(flat, g, no, g');
    ListedRemoval(flat, g.nextNo, no);
    assert FirstOfId(Listed(flat, g.nextNo), id) == |Listed(flat, no)|;
  }

  /** Closing an id under another key leaves its entry in `byKey`: nothing explains the indexes any more. */
  lemma WrongKeyBreaksAgreement<S>(flat: map<nat, Idle<S>>, g: Inner<S>, meta: ConnectionMeta, g': Inner<S>,
      f: map<nat, Idle<S>>)
    requires Mirror(flat, g) && meta.id in g.byId && g.order[g.byId[meta.id]].key != meta.key
    requires g'.order == g.order - {g.byId[meta.id]} && CellSet(g.byKey, meta.key, g.byId[meta.id], None, g'.byKey)
    ensures !Mirror(f, g')
  {
    var no := g.byId[meta.id];
    assert Cell(g'.byKey, g.order[no].key, no) == FlatCell(flat, g.order[no].key, no);
    assert no !in g'.order;
  }

  /** Inserting a fresh id appends to the list. */
  lemma InsertFresh<S>(flat: map<nat, Idle<S>>, g: Inner<S>, x: Idle<S>, g': Inner<S>)
    requires Mirror(flat, g) && x.id !in g.byId && Entered(g, x, g')
    ensures Mirror(flat[x.no := x], g')
    ensures Listed(flat[x.no := x], g'.nextNo) == Listed(flat, g.nextNo) + [x]
  {
    MirrorWith(flat, g, x, g');
    ListedFrame(flat, flat[x.no := x], g.nextNo);
  }

  lemma SizeOfList<S>(flat: map<nat, Idle<S>>, g: Inner<S>)
    requires Mirror(flat, g)
    ensures |g.order| == |Listed(flat, g.nextNo)|
  {
    ListedSize(flat, g.nextNo);
    assert (set s | s in flat && s < g.nextNo) == g.order.Keys;
  }

  lemma {:induction false} NothingBelow<S>(flat: map<nat, Idle<S>>, n: nat)
    requires forall s :: s in flat ==> n <= s
    ensures Listed(flat, n) == []
  {
    if n > 0 {
      NothingBelow(flat, n - 1);
    }
  }

  /** Evicting the smallest number drops the head of the list. */
  lemma EvictHead<S>(flat: map<nat, Idle<S>>, g: Inner<S>, no: nat, g': Inner<S>)
    requires Mirror(flat, g) && IsMin(g.order.Keys, no) && Gone(g, no, g')
    ensures Mirror(flat - {no}, g')
    ensures |Listed(flat, g.nextNo)| > 0 && Listed(flat, g.nextNo)[0].no == no
    ensures Cell(g.byKey, g.order[no].key, no).Some? && Cell(g.byKey, g.order[no].key, no).value.ticket == no
    ensures Listed(flat - {no}, g'.nextNo) == Listed(flat, g.nextNo)[1..]
  {
    MirrorWithout(flat, g, no, g');
    ListedRemoval(flat, g.nextNo, no);
    NothingBelow(flat, no);
  }

  /** Two pooled connections share an id, and `byId` knows the newer. */
  ghost predicate Doubled<S>(g: Inner<S>, first: nat, second: nat) {
    && first < second && first in g.order && second in g.order
    && g.order[first].id == g.order[second].id && g.order[first].id in g.byId && g.byId[g.order[first].id] == second
  }

  lemma MirroredId<S>(flat: map<nat, Idle<S>>, g: Inner<S>, no: nat)
    requires Mirror(flat, g) && no in g.order
    ensures g.order[no].id in g.byId && g.byId[g.order[no].id] == no
  {
    assert no in flat;
  }

  lemma DoubledBreaksAgreement<S>(g: Inner<S>, first: nat, second: nat, f: map<nat, Idle<S>>)
    requires Doubled(g, first, second)
    ensures !Mirror(f, g)
  {
    if Mirror(f, g) {
      MirroredId(f, g, first);
      assert false;
    }
  }

  /** Evicting the oldest does not repair a doubled id. */
  lemma TrimmingKeepsDisagreement<S>(g: Inner<S>, first: nat, second: nat, no: nat, g': Inner<S>, f: map<nat, Idle<S>>)
    requires Doubled(g, first, second) && IsMin(g.order.Keys, no) && Gone(g, no, g')
    ensures !Mirror(f, g')
  {
    assert first in g.order.Keys && second in g.order.Keys;
    if Mirror(f, g') {
      MirroredId(f, g', if first == no then second else first);
      assert false;
    }
  }

  /** A node without one entry, dropped when that empties it, is a cleared cell. */
  lemma ClearedCell<S>(byKey: map<nat, Node<S>>, key: nat, no: nat)
    requires NoEmptyNode(byKey) && key in byKey
    ensures |byKey[key] - {no}| != 0 ==> CellSet(byKey, key, no, None, byKey[key := byKey[key] - {no}])
    ensures |byKey[key] - {no}| == 0 ==> CellSet(byKey, key, no, None, byKey - {key})
  {
    var rest := byKey[key] - {no};
    if |rest| == 0 {
      assert forall s :: s in byKey[key] && s != no ==> s in rest;
    }
  }

  /** Take entry `no` out of the node of `key`, and the node out when that empties it. */
  method RemoveEntry<S>(byKey: map<nat, Node<S>>, key: nat, no: nat) returns (byKey': map<nat, Node<S>>)
    requires NoEmptyNode(byKey)
    ensures CellSet(byKey, key, no, None, byKey')
  {
    byKey' := byKey;
    if key in byKey {
      ClearedCell(byKey, key, no);
      byKey' := byKey'[key := byKey'[key] - {no}];
      if |byKey'[key]| == 0 {
        byKey' := byKey' - {key};
        assert byKey' == byKey - {key};
      }
    }
  }

  /** Add an entry to the node of `key`, creating the node when there is none. */
  method AddEntry<S>(byKey: map<nat, Node<S>>, key: nat, no: nat, e: Entry<S>) returns (byKey': map<nat, Node<S>>)
    requires NoEmptyNode(byKey)
    ensures CellSet(byKey, key, no, Some(e), byKey')
  {
    var node := if key in byKey then byKey[key] else map[];
    byKey' := byKey[key := node[no := e]];
    assert no in byKey'[key];
  }

  method PopFirst(keys: set<nat>) returns (no: nat)
    requires keys != {}
    ensures IsMin(keys, no)
  {
    HasMin(keys);
    no :| IsMin(keys, no);
  }

  /** Drop the oldest connection of all from the three indexes; nothing when there is none. */
  method EvictOldest<S>(g: Inner<S>) returns (g': Inner<S>, victim: Option<Entry<S>>, ghost no: nat)
    requires NoEmptyNode(g.byKey)
    ensures |g.order| == 0 ==> g' == g && victim == None
    ensures |g.order| > 0 ==> IsMin(g.order.Keys, no) && Gone(g, no, g') && g'.highWater == g.highWater
    ensures |g.order| > 0 ==> victim == Cell(g.byKey, g.order[no].key, no)
  {
    if |g.order| == 0 {
      return g, None, 0;
    }
    var oldest := PopFirst(g.order.Keys);
    var meta := g.order[oldest];
    g' := g.(order := g.order - {oldest}, byId := g.byId - {meta.id});
    victim := Cell(g.byKey, meta.key, oldest);
    var byKey := RemoveEntry(g.byKey, meta.key, oldest);
    g' := g'.(byKey := byKey);
    no := oldest;
  }

  /** One more connection in all three indexes, and the high-water mark of the offered set. */
  method Enter<S>(g: Inner<S>, meta: ConnectionMeta, conn: S) returns (g': Inner<S>)
    requires NoEmptyNode(g.byKey)
    ensures Entered(g, Idle(g.nextNo, meta.key, meta.id, conn), g')
    ensures g'.highWater == if |g'.order| > g.highWater then |g'.order| else g.highWater
    ensures meta.id in g.byId && g.byId[meta.id] in g.order && g.byId[meta.id] < g.nextNo
            && g.order[g.byId[meta.id]].id == meta.id ==>
              Doubled(g', g.byId[meta.id], g.nextNo)
  {
    var no := g.nextNo;
    var byKey := AddEntry(g.byKey, meta.key, no, Entry(conn, no, meta.id));
    g' := g.(nextNo := no + 1, order := g.order[no := meta], byId := g.byId[meta.id := no], byKey := byKey);
    var offered := |g'.order|;
    if offered > g'.highWater {
      g' := g'.(highWater := offered);
    }
  }

  /** Evict the oldest when the offered set is over the ceiling. */
  method Trim<S(!new)>(g: Inner<S>, size: nat, ghost flat: map<nat, Idle<S>>)
    returns (g': Inner<S>, victim: Option<Entry<S>>, ghost flat': map<nat, Idle<S>>)
    requires NoEmptyNode(g.byKey)
    ensures g'.nextNo == g.nextNo && g'.highWater == g.highWater
    ensures Mirror(flat, g) ==> Mirror(flat', g')
    ensures Mirror(flat, g) && |g.order| > size ==>
              && |Listed(flat, g.nextNo)| > 0 && Listed(flat', g'.nextNo) == Listed(flat, g.nextNo)[1..]
              && victim.Some? && victim.value.ticket == Listed(flat, g.nextNo)[0].no
    ensures |g.order| <= size ==> flat' == flat && victim == None
    ensures forall a, b :: Doubled(g, a, b) ==> !IndexesAgree(g')
  {
    g', victim, flat' := g, None, flat;
    if |g.order| <= size {
      forall a, b | Doubled(g, a, b)
        ensures !IndexesAgree(g')
      {
        DoubledNeverAgrees(g, a, b);
      }
    } else {
      ghost var no;
      g', victim, no := EvictOldest(g);
      flat' := flat - {no};
      if Mirror(flat, g) {
        EvictHead(flat, g, no, g');
      }
      forall a, b | Doubled(g, a, b)
        ensures !IndexesAgree(g')
      {
        TrimmedDoubledNeverAgrees(g, a, b, no, g');
      }
    }
  }

  ghost function PoolOf<S>(flat: map<nat, Idle<S>>, g: Inner<S>, log: seq<Notice>): Pool<S> {
    Pool(Listed(flat, g.nextNo), g.nextNo, g.highWater, log)
  }

  ghost function EvictionNotices<S>(victim: Option<Entry<S>>): seq<Notice> {
    if victim.Some? then Evicted(victim.value.ticket) else []
  }

  /** What `Put` does while it holds the lock. */
  method PutLocked<S(!new)>(g: Inner<S>, size: nat, meta: ConnectionMeta, conn: S, ghost flat: map<nat, Idle<S>>,
      ghost log: seq<Notice>)
    returns (g': Inner<S>, victim: Option<Entry<S>>, ghost flat': map<nat, Idle<S>>)
    requires size >= 1 && Mirror(flat, g)
    ensures meta.id !in g.byId ==> Mirror(flat', g')
    ensures meta.id !in g.byId ==>
            PoolOf(flat', g', log + EvictionNotices(victim)) == SpecPut(PoolOf(flat, g, log), size, meta, conn)
    ensures meta.id in g.byId ==> !IndexesAgree(g')
  {
    var entered := Enter(g, meta, conn);
    ghost var x := Idle(g.nextNo, meta.key, meta.id, conn);
    if meta.id !in g.byId {
      InsertFresh(flat, g, x, entered);
      SizeOfList(flat[x.no := x], entered);
    } else {
      assert Doubled(entered, g.byId[meta.id], g.nextNo);
    }
    g', victim, flat' := Trim(entered, size, flat[x.no := x]);
    if meta.id !in g.byId {
      PutIsSpec(PoolOf(flat, g, log), size, meta, conn, PoolOf(flat', g', log + EvictionNotices(victim)), victim);
    }
  }

  /** A new entry at the end, and the head gone with its notices when that is over the ceiling. */
  lemma PutIsSpec<S>(p: Pool<S>, size: nat, meta: ConnectionMeta, conn: S, p': Pool<S>, victim: Option<Entry<S>>)
    requires var offered := p.idle + [Idle(p.nextNo, meta.key, meta.id, conn)];
             && p'.nextNo == p.nextNo + 1 && p'.highWater == Max(p.highWater, |offered|)
             && p'.log == p.log + EvictionNotices(victim)
             && if |offered| > size then p'.idle == offered[1..] && victim.Some? && victim.value.ticket == offered[0].no
                else p'.idle == offered && victim.None?
    ensures p' == SpecPut(p, size, meta, conn)
  {
    assert p.log + [] == p.log;
  }

  class ConnectionPool<S(!new)> {
    const size: nat
    var inner: Inner<S>
    var log: seq<Notice>
    ghost var flat: map<nat, Idle<S>>

    ghost predicate Valid()
      reads this
    {
      size >= 1 && Mirror(flat, inner)
    }

    /** The pool as a single insertion-ordered list. */
    ghost function View(): Pool<S>
      reads this
    {
      PoolOf(flat, inner, log)
    }

    constructor (requested: nat)
      ensures Valid() && View() == Fresh()
      ensures size == Max(requested, 1)
    {
      inner, log, flat := Inner(1, map[], map[], map[], 0), [], map[];
      size := Max(requested, 1);
      new;
      ListedIsFlat(flat, 1);
    }

    /** Oldest connection of the key, with `true` sent to its watcher; nothing when there is none. */
    method Get(key: nat) returns (conn: Option<S>)
      requires Valid()
      modifies this
      ensures Valid()
      ensures (View(), conn) == SpecGet(old(View()), key)
    {
      var g := inner;
      if key !in g.byKey || |g.byKey[key]| == 0 {
        NoneOfKey(flat, g.byKey, g.nextNo, key);
        return None;
      }
      var no := PopFirst(g.byKey[key].Keys);
      var e := g.byKey[key][no];
      var byKey := RemoveEntry(g.byKey, key, no);
      g := g.(byKey := byKey, order := g.order - {no}, byId := g.byId - {e.id});
      KeyIsOrdered(flat, inner, key, no);
      TakeOldestOfKey(flat, inner, key, no, g);
      inner, flat := g, flat - {no};
      log := log + [PickupSent(e.ticket)];
      conn := Some(e.conn);
    }

    /**
     Insert, then trim to the ceiling from the oldest across all keys.  Callers must not put
     an id that is still pooled: the indexes stay in agreement exactly when they do not.
     */
    method Put(meta: ConnectionMeta, conn: S) returns (ticket: nat)
      requires Valid()
      modifies this
      ensures ticket == old(inner.nextNo)
      ensures meta.id !in old(inner.byId) ==> Valid() && View() == SpecPut(old(View()), size, meta, conn)
      ensures meta.id in old(inner.byId) ==> !IndexesAgree(inner)
    {
      var g, victim, f := PutLocked(inner, size, meta, conn, flat, log);
      ticket := inner.nextNo;
      inner, flat := g, f;
      if victim.Some? {
        log := log + [CloseNotified(victim.value.ticket), SenderDropped(victim.value.ticket),
            ConnDropped(victim.value.ticket)];
      }
    }

    ghost predicate KeyMatches(meta: ConnectionMeta)
      reads this
    {
      meta.id in inner.byId && inner.byId[meta.id] in inner.order ==> inner.order[inner.byId[meta.id]].key == meta.key
    }

    /**
     Remove the connection a watcher is closing, if it is still pooled.  The watcher must name
     the key the id was put under: the indexes stay in agreement exactly when it does.
     */
    method PopClosed(meta: ConnectionMeta)
      requires Valid()
      modifies this
      ensures old(KeyMatches(meta)) ==> Valid() && View() == SpecPopClosed(old(View()), meta.id)
      ensures !old(KeyMatches(meta)) ==> !IndexesAgree(inner)
    {
      var g := inner;
      if meta.id !in g.byId {
        NoneOfId(flat, g.byId, g.nextNo, meta.id);
        return;
      }
      var no := g.byId[meta.id];
      g := g.(byId := g.byId - {meta.id}, order := g.order - {no});
      var removed := Cell(g.byKey, meta.key, no);
      var byKey := RemoveEntry(g.byKey, meta.key, no);
      g := g.(byKey := byKey);
      if KeyMatches(meta) {
        MirrorWithout(flat, inner, no, g);
        TakeById(flat, inner, meta.id, g);
      } else {
        WrongKeyNeverAgrees(flat, inner, meta, g);
      }
      inner, flat := g, flat - {no};
      if removed.Some? {
        log := log + [ConnDropped(removed.value.ticket), SenderDropped(removed.value.ticket)];
      }
    }
  }

  lemma KeyIsOrdered<S>(flat: map<nat, Idle<S>>, g: Inner<S>, key: nat, no: nat)
    requires Mirror(flat, g) && key in g.byKey && no in g.byKey[key]
    ensures no in g.order && g.order[no] == ConnectionMeta(key, g.byKey[key][no].id)
  {
    assert Cell(g.byKey, key, no) == FlatCell(flat, key, no);
  }

  lemma DoubledNeverAgrees<S(!new)>(g: Inner<S>, first: nat, second: nat)
    requires Doubled(g, first, second)
    ensures !IndexesAgree(g)
  {
    forall f: map<nat, Idle<S>>
      ensures !Mirror(f, g)
    {
      DoubledBreaksAgreement(g, first, second, f);
    }
  }

  lemma TrimmedDoubledNeverAgrees<S(!new)>(g: Inner<S>, first: nat, second: nat, no: nat, g': Inner<S>)
    requires Doubled(g, first, second) && IsMin(g.order.Keys, no) && Gone(g, no, g')
    ensures !IndexesAgree(g')
  {
    forall f: map<nat, Idle<S>>
      ensures !Mirror(f, g')
    {
      TrimmingKeepsDisagreement(g, first, second, no, g', f);
    }
  }

  lemma WrongKeyNeverAgrees<S(!new)>(flat: map<nat, Idle<S>>, g: Inner<S>, meta: ConnectionMeta, g': Inner<S>)
    requires Mirror(flat, g) && meta.id in g.byId && g.order[g.byId[meta.id]].key != meta.key
    requires g'.order == g.order - {g.byId[meta.id]} && CellSet(g.byKey, meta.key, g.byId[meta.id], None, g'.byKey)
    ensures !IndexesAgree(g')
  {
    forall f: map<nat, Idle<S>>
      ensures !Mirror(f, g')
    {
      WrongKeyBreaksAgreement(flat, g, meta, g', f);
    }
  }

  // ----- the two preconditions, on the list and on the indexes -----

  lemma ListedOfId<S>(flat: map<nat, Idle<S>>, g: Inner<S>, id: int)
    requires Mirror(flat, g)
    ensures id in g.byId <==> exists i :: 0 <= i < |Listed(flat, g.nextNo)| && Listed(flat, g.nextNo)[i].id == id
    ensures forall i :: 0 <= i < |Listed(flat, g.nextNo)| && Listed(flat, g.nextNo)[i].id == id ==>
              id in g.byId && g.order[g.byId[id]].key == Listed(flat, g.nextNo)[i].key
  {
    ListedIsFlat(flat, g.nextNo);
    if id in g.byId {
      ListedWithout(flat, g.byId[id], g.nextNo);
    }
  }

  /** Putting is legal on the list exactly when the id is not in the id index. */
  lemma LegalPut<S>(flat: map<nat, Idle<S>>, g: Inner<S>, log: seq<Notice>, meta: ConnectionMeta, conn: S)
    requires Mirror(flat, g)
    ensures Legal(PoolOf(flat, g, log), Put(meta, conn)) <==> meta.id !in g.byId
  {
    ListedOfId(flat, g, meta.id);
  }

  /** Closing is legal on the list exactly when the indexes know the id under that key, or not at all. */
  lemma LegalPopClosed<S>(flat: map<nat, Idle<S>>, g: Inner<S>, log: seq<Notice>, meta: ConnectionMeta)
    requires Mirror(flat, g)
    ensures Legal(PoolOf(flat, g, log), PopClosed(meta)) <==>
            (meta.id in g.byId && g.byId[meta.id] in g.order ==> g.order[g.byId[meta.id]].key == meta.key)
  {
    ListedOfId(flat, g, meta.id);
  }

  // ----- whole runs of the three indexes -----

  lemma {:induction false} LegalPrefix<S>(size: nat, ops: seq<Op<S>>, n: nat)
    requires LegalRun(size, ops) && n <= |ops|
    ensures LegalRun(size, ops[..n])
    ensures n < |ops| ==> Legal(Run(size, ops[..n]), ops[n])
    decreases |ops|
  {
    if n == |ops| {
      assert ops[..n] == ops;
    } else if n < |ops| - 1 {
      LegalPrefix(size, ops[..|ops| - 1], n);
      assert ops[..|ops| - 1][..n] == ops[..n];
    }
  }

  /** Every checkout of a run answered the oldest connection put under its key that nothing had happened to. */
  ghost predicate Answered<S>(size: nat, ops: seq<Op<S>>, answers: seq<Option<S>>) {
    && |answers| == |ops|
    && (forall i :: 0 <= i < |ops| && ops[i].Get? ==> OldestAnswer(size, ops[..i], ops[i].key, answers[i]))
  }

  lemma AnsweredOneMore<S>(size: nat, ops: seq<Op<S>>, n: nat, answers: seq<Option<S>>, answer: Option<S>)
    requires size >= 1 && n < |ops| && Answered(size, ops[..n], answers)
    requires ops[n].Get? ==> answer == SpecGet(Run(size, ops[..n]), ops[n].key).1
    ensures Answered(size, ops[..n + 1], answers + [answer])
    ensures Run(size, ops[..n + 1]) == Apply(Run(size, ops[..n]), size, ops[n])
  {
    assert ops[..n + 1][..n] == ops[..n];
    forall i | 0 <= i < n + 1 && ops[i].Get?
      ensures OldestAnswer(size, ops[..n + 1][..i], ops[i].key, (answers + [answer])[i])
    {
      assert ops[..n + 1][..i] == ops[..n][..i];
      if i == n {
        GetAnswersOldest(size, ops[..n], ops[n].key);
      } else {
        assert ops[..n][i] == ops[i];
      }
    }
  }

  method Perform<S(!new)>(pool: ConnectionPool<S>, op: Op<S>) returns (answer: Option<S>)
    requires pool.Valid() && Legal(pool.View(), op)
    modifies pool
    ensures pool.Valid() && pool.View() == Apply(old(pool.View()), pool.size, op)
    ensures op.Get? ==> answer == SpecGet(old(pool.View()), op.key).1
  {
    answer := None;
    match op {
      case Get(key) =>
        answer := pool.Get(key);
      case Put(meta, conn) =>
        LegalPut(pool.flat, pool.inner, pool.log, meta, conn);
        var _ := pool.Put(meta, conn);
      case PopClosed(meta) =>
        LegalPopClosed(pool.flat, pool.inner, pool.log, meta);
        pool.PopClosed(meta);
    }
  }

  /**
   Any run of calls that respects the two preconditions leaves three indexes that agree, and the list they describe is
   the reference list after the same run.  What is proved of every run of the list therefore holds of the indexes.
   Every checkout on the way answers the oldest connection put under its key that nothing has happened to.
   */
  method Replay<S(!new)>(requested: nat, ops: seq<Op<S>>)
    returns (pool: ConnectionPool<S>, answers: seq<Option<S>>)
    requires LegalRun(Max(requested, 1), ops)
    ensures pool.Valid() && pool.size == Max(requested, 1) && pool.View() == Run(Max(requested, 1), ops)
    ensures Answered(Max(requested, 1), ops, answers)
  {
    pool := new ConnectionPool(requested);
    answers := [];
    for i := 0 to |ops|
      invariant pool.Valid() && pool.size == Max(requested, 1) && pool.View() == Run(pool.size, ops[..i])
      invariant fresh(pool) && Answered(pool.size, ops[..i], answers)
    {
      LegalPrefix(pool.size, ops, i);
      var answer := Perform(pool, ops[i]);
      AnsweredOneMore(pool.size, ops, i, answers, answer);
      answers := answers + [answer];
    }
    assert ops[..|ops|] == ops;
  }

  /** After every legal run the indexes hold at most the ceiling, and each put has had exactly one fate. */
  method ReplayConserves<S(!new)>(requested: nat, ops: seq<Op<S>>) returns (pool: ConnectionPool<S>)
    requires LegalRun(Max(requested, 1), ops)
    ensures pool.Valid() && |pool.inner.order| == |pool.View().idle| <= Max(requested, 1)
    ensures pool.inner.nextNo == Puts(ops) + 1
    ensures forall no :: 1 <= no <= Puts(ops) ==> ExactlyOneFate(pool.View(), no)
    ensures forall no :: 1 <= no <= Puts(ops) && HasFate(pool.View(), no, WasEvicted) ==>
            Puts(ops) - no >= Max(requested, 1)
    ensures pool.inner.highWater == PeakOffered(Max(requested, 1), ops) <= Max(requested, 1) + 1
    ensures DistinctIds(pool.View().idle)
  {
    var answers;
    pool, answers := Replay(requested, ops);
    RunInv(pool.size, ops);
    SizeOfList(pool.flat, pool.inner);
    PutsAreConserved(pool.size, ops);
    HighWaterIsPeak(pool.size, ops);
    LegalRunKeepsIdsDistinct(pool.size, ops);
    forall no | 1 <= no <= Puts(ops) && HasFate(pool.View(), no, WasEvicted)
      ensures Puts(ops) - no >= pool.size
    {
      EvictionNeedsLaterPuts(pool.size, ops, no);
    }
  }
}
