/** The worker's sample rings: a fixed buffer that overwrites, dumped incrementally, with every loss counted. */
module SampleRing {
  import opened Common

  datatype Op<T> = Record(sample: T) | Dump

  /** Everything recorded so far, in order. */
  function Recorded<T>(ops: seq<Op<T>>): seq<T> {
    if ops == [] then []
    else
      var before := Recorded(ops[..|ops| - 1]);
      match ops[|ops| - 1]
      case Record(sample) => before + [sample]
      case Dump => before
  }

  /** How many samples had been recorded at the last dump. */
  function Dumped<T>(ops: seq<Op<T>>): (d: nat)
    ensures d <= |Recorded(ops)|
  {
    if ops == [] then 0
    else if ops[|ops| - 1].Dump? then |Recorded(ops)|
    else Dumped(ops[..|ops| - 1])
  }

  /** `count` numbers from `first` on. */
  function Range(first: nat, count: nat): (r: seq<nat>)
    ensures |r| == count && forall i :: 0 <= i < count ==> r[i] == first + i
  {
    if count == 0 then [] else Range(first, count - 1) + [first + count - 1]
  }

  /** The first sample a dump can still find. */
  function OldestLeft(cap: nat, n: nat, dumped: nat): (r: nat)
    ensures dumped <= n ==> r <= n
  {
    Max(dumped, n - cap)
  }

  function DumpedNow(cap: nat, n: nat, dumped: nat): seq<nat>
    requires dumped <= n
  {
    Range(OldestLeft(cap, n, dumped), n - OldestLeft(cap, n, dumped))
  }

  /** The numbers of the samples that were written out, in the order of writing. */
  function Written<T>(cap: nat, ops: seq<Op<T>>): seq<nat> {
    if ops == [] then []
    else
      var before := ops[..|ops| - 1];
      if ops[|ops| - 1].Record? then Written(cap, before)
      else Written(cap, before) + DumpedNow(cap, |Recorded(before)|, Dumped(before))
  }

  /** Sample `i` lost its slot to a later sample while it was still waiting for a dump. */
  predicate Overwritten<T>(cap: nat, ops: seq<Op<T>>, i: nat) {
    ops != [] && (Overwritten(cap, ops[..|ops| - 1], i) || Dumped(ops) <= i < |Recorded(ops)| - cap)
  }

  ghost function Lost<T(!new)>(cap: nat, ops: seq<Op<T>>): set<nat> {
    set i: nat | 0 <= i < |Recorded(ops)| && Overwritten(cap, ops, i)
  }

  predicate Waiting<T>(cap: nat, ops: seq<Op<T>>, i: nat) {
    OldestLeft(cap, |Recorded(ops)|, Dumped(ops)) <= i < |Recorded(ops)|
  }

  predicate Below(s: seq<nat>, n: nat) {
    forall i :: 0 <= i < |s| ==> s[i] < n
  }

  predicate Increasing(s: seq<nat>) {
    forall i, j :: 0 <= i < j < |s| ==> s[i] < s[j]
  }

  // ----- what becomes of a sample -----

  /** Where every sample is; written numbers grow and stay below the last dump. */
  ghost predicate Accounted<T(!new)>(cap: nat, ops: seq<Op<T>>) {
    var n, d, w := |Recorded(ops)|, Dumped(ops), Written(cap, ops);
    && Increasing(w) && Below(w, d)
    && (forall i: nat :: i < d ==> (i in w <==> !Overwritten(cap, ops, i)))
    && (forall i: nat :: d <= i < n ==> (Overwritten(cap, ops, i) <==> i < n - cap))
    && (forall i: nat :: n <= i ==> !Overwritten(cap, ops, i))
  }

  lemma AccountedRecord<T(!new)>(cap: nat, before: seq<Op<T>>, ops: seq<Op<T>>)
    requires ops != [] && before == ops[..|ops| - 1] && ops[|ops| - 1].Record? && Accounted(cap, before)
    ensures Accounted(cap, ops)
  {
    forall i: nat
      ensures Overwritten(cap, ops, i) <==> Overwritten(cap, before, i) || Dumped(ops) <= i < |Recorded(ops)| - cap
    {
    }
  }

  lemma AccountedDump<T(!new)>(cap: nat, before: seq<Op<T>>, ops: seq<Op<T>>)
    requires ops != [] && before == ops[..|ops| - 1] && ops[|ops| - 1].Dump? && Accounted(cap, before)
    ensures Accounted(cap, ops)
  {
    var n, d, w := |Recorded(before)|, Dumped(before), Written(cap, before);
    var more := DumpedNow(cap, n, d);
    assert Written(cap, ops) == w + more;
    InOrder(w, more, d);
    forall i: nat
      ensures Overwritten(cap, ops, i) <==> Overwritten(cap, before, i)
      ensures i in more <==> OldestLeft(cap, n, d) <= i < n
    {
      if OldestLeft(cap, n, d) <= i < n {
        assert more[i - OldestLeft(cap, n, d)] == i;
      }
    }
  }

  lemma InOrder(a: seq<nat>, b: seq<nat>, d: nat)
    requires Increasing(a) && Increasing(b) && Below(a, d) && forall i :: 0 <= i < |b| ==> d <= b[i]
    ensures Increasing(a + b)
  {
  }

  /** Every recorded sample is written, lost or waiting, and exactly one of these; what is written is in order. */
  lemma {:induction false} EverySampleHasOneFate<T(!new)>(cap: nat, ops: seq<Op<T>>)
    ensures Accounted(cap, ops)
    ensures Increasing(Written(cap, ops))
    ensures forall i: nat :: i < |Recorded(ops)| ==>
                               var written, lost, waiting := i in Written(cap, ops), Overwritten(cap, ops, i),
                                   Waiting(cap, ops, i);
                               (written || lost || waiting) && !(written && lost) && !(written && waiting)
                                   && !(lost && waiting)
  {
    if ops != [] {
      var before := ops[..|ops| - 1];
      EverySampleHasOneFate(cap, before);
      if ops[|ops| - 1].Record? {
        AccountedRecord(cap, before, ops);
      } else {
        AccountedDump(cap, before, ops);
      }
    }
  }

  /** The counter the worker keeps. */
  function LostCount<T>(cap: nat, ops: seq<Op<T>>): nat {
    if ops == [] then 0
    else
      var before := ops[..|ops| - 1];
      LostCount(cap, before) + if ops[|ops| - 1].Record? && |Recorded(before)| - Dumped(before) >= cap then 1 else 0
  }

  lemma LostSteps<T(!new)>(cap: nat, before: seq<Op<T>>, ops: seq<Op<T>>)
    requires ops != [] && before == ops[..|ops| - 1] && Accounted(cap, before) && Accounted(cap, ops)
    ensures |Lost(cap, ops)| == |Lost(cap, before)|
                                + if ops[|ops| - 1].Record? && |Recorded(before)| - Dumped(before) >= cap then 1 else 0
  {
    var n := |Recorded(before)|;
    if ops[|ops| - 1].Record? && n - Dumped(before) >= cap {
      LostMembers(cap, before, ops);
      OneMore(Lost(cap, before), Lost(cap, ops), n - cap);
    } else {
      LostMembers(cap, before, ops);
      assert Lost(cap, ops) == Lost(cap, before);
    }
  }

  lemma OneMore(s: set<nat>, s': set<nat>, x: nat)
    requires x !in s && forall i: nat :: i in s' <==> i in s || i == x
    ensures |s'| == |s| + 1
  {
    assert s' == s + {x};
  }

  lemma LostMembers<T(!new)>(cap: nat, before: seq<Op<T>>, ops: seq<Op<T>>)
    requires ops != [] && before == ops[..|ops| - 1] && Accounted(cap, before) && Accounted(cap, ops)
    ensures var n := |Recorded(before)|;
            var newly := ops[|ops| - 1].Record? && n - Dumped(before) >= cap;
            && (forall i: nat :: i in Lost(cap, ops) <==> i in Lost(cap, before) || (newly && i == n - cap))
            && (newly ==> n - cap !in Lost(cap, before))
  {
  }

  lemma {:induction false} LostIsCounted<T(!new)>(cap: nat, ops: seq<Op<T>>)
    ensures LostCount(cap, ops) == |Lost(cap, ops)|
  {
    if ops == [] {
      assert Lost(cap, ops) == {};
    } else {
      var before := ops[..|ops| - 1];
      LostIsCounted(cap, before);
      FatesTo(cap, before, ops);
      LostSteps(cap, before, ops);
    }
  }

  /** Recorded is written, lost and what a dump would still find. */
  predicate Balanced<T>(cap: nat, ops: seq<Op<T>>) {
    |Recorded(ops)| == |Written(cap, ops)| + LostCount(cap, ops) + Min(|Recorded(ops)| - Dumped(ops), cap)
  }

  lemma BalanceStep<T>(cap: nat, before: seq<Op<T>>, ops: seq<Op<T>>)
    requires ops != [] && before == ops[..|ops| - 1] && Balanced(cap, before)
    ensures Balanced(cap, ops)
  {
    var n, d := |Recorded(before)|, Dumped(before);
    if ops[|ops| - 1].Record? {
      assert |Recorded(ops)| == n + 1 && Dumped(ops) == d && Written(cap, ops) == Written(cap, before);
      assert LostCount(cap, ops) == LostCount(cap, before) + if n - d >= cap then 1 else 0;
    } else {
      assert |Recorded(ops)| == n && Dumped(ops) == n && LostCount(cap, ops) == LostCount(cap, before);
      assert |Written(cap, ops)| == |Written(cap, before)| + (n - OldestLeft(cap, n, d));
    }
  }

  lemma {:induction false} AlwaysBalanced<T>(cap: nat, ops: seq<Op<T>>)
    ensures Balanced(cap, ops)
  {
    if ops != [] {
      AlwaysBalanced(cap, ops[..|ops| - 1]);
      BalanceStep(cap, ops[..|ops| - 1], ops);
    }
  }

  /** The loss counter is the number of samples lost, and nothing else is missing from the output. */
  lemma LossesAreCounted<T(!new)>(cap: nat, ops: seq<Op<T>>)
    ensures LostCount(cap, ops) == |Lost(cap, ops)|
    ensures |Recorded(ops)| == |Written(cap, ops)| + LostCount(cap, ops) + Min(|Recorded(ops)| - Dumped(ops), cap)
  {
    LostIsCounted(cap, ops);
    AlwaysBalanced(cap, ops);
  }

  lemma FatesTo<T(!new)>(cap: nat, before: seq<Op<T>>, ops: seq<Op<T>>)
    ensures Accounted(cap, before) && Accounted(cap, ops)
  {
    EverySampleHasOneFate(cap, before);
    EverySampleHasOneFate(cap, ops);
  }

  // ----- the ring itself -----

  function Pick<T>(all: seq<T>, numbers: seq<nat>): (r: seq<T>)
    requires Below(numbers, |all|)
    ensures |r| == |numbers| && forall i :: 0 <= i < |numbers| ==> r[i] == all[numbers[i]]
  {
    seq(|numbers|, i requires 0 <= i < |numbers| => all[numbers[i]])
  }

  /** The counters and the file are what the history of calls says. */
  ghost predicate Tallies<T(!new)>(cap: nat, n: nat, dumped: nat, lost: nat, out: seq<T>, ops: seq<Op<T>>) {
    && n == |Recorded(ops)| && dumped == Dumped(ops) && lost == LostCount(cap, ops)
    && Below(Written(cap, ops), n)
    && out == Pick(Recorded(ops), Written(cap, ops))
  }

  lemma RecordTallies<T(!new)>(cap: nat, n: nat, dumped: nat, lost: nat, out: seq<T>, ops: seq<Op<T>>, sample: T)
    requires Tallies(cap, n, dumped, lost, out, ops)
    ensures Tallies(cap, n + 1, dumped, lost + if n - dumped >= cap then 1 else 0, out, ops + [Record(sample)])
    ensures Recorded(ops + [Record(sample)]) == Recorded(ops) + [sample]
  {
    assert (ops + [Record(sample)])[..|ops|] == ops;
    PickGrows(Recorded(ops), [sample], Written(cap, ops));
  }

  lemma DumpTallies<T(!new)>(cap: nat, n: nat, dumped: nat, lost: nat, out: seq<T>, ops: seq<Op<T>>)
    requires Tallies(cap, n, dumped, lost, out, ops)
    ensures var first := OldestLeft(cap, n, dumped);
            first <= n && Tallies(cap, n, n, lost, out + Recorded(ops)[first..n], ops + [Dump])
                && Recorded(ops + [Dump]) == Recorded(ops)
  {
    var first := OldestLeft(cap, n, dumped);
    DumpSteps(cap, ops);
    PickRange(Recorded(ops), first, n - first);
    PickConcat(Recorded(ops), Written(cap, ops), DumpedNow(cap, n, dumped));
  }

  lemma DumpSteps<T(!new)>(cap: nat, ops: seq<Op<T>>)
    ensures var ops' := ops + [Dump];
            && Recorded(ops') == Recorded(ops) && Dumped(ops') == |Recorded(ops)|
               && LostCount(cap, ops') == LostCount(cap, ops)
            && Written(cap, ops') == Written(cap, ops) + DumpedNow(cap, |Recorded(ops)|, Dumped(ops))
  {
    assert (ops + [Dump])[..|ops|] == ops;
  }

  function SlotOf(i: nat, cap: nat): (slot: nat)
    requires cap > 0
    ensures slot < cap
  {
    i % cap
  }

  /** The buffer holds the latest samples, each in its slot. */
  ghost predicate SlotsHold<T(!new)>(buf: seq<T>, all: seq<T>) {
    |buf| > 0 && forall i: nat :: |all| - |buf| <= i < |all| ==> buf[SlotOf(i, |buf|)] == all[i]
  }

  class Ring<T(0, !new)> {
    const slots: array<T>
    var n: nat
    var dumped: nat
    var lost: nat
    /** The file the dumps are appended to. */
    var out: seq<T>
    ghost var ops: seq<Op<T>>

    ghost predicate Valid()
      reads this, slots
    {
      && slots.Length > 0
      && Tallies(slots.Length, n, dumped, lost, out, ops)
      && SlotsHold(slots[..], Recorded(ops))
    }

    constructor (capacity: nat)
      requires capacity > 0
      ensures Valid() && slots.Length == capacity && ops == [] && fresh(slots)
    {
      slots := new T[capacity];
      n, dumped, lost, out, ops := 0, 0, 0, [], [];
    }

    method RecordSample(sample: T)
      requires Valid()
      modifies this, slots
      ensures Valid() && ops == old(ops) + [Record(sample)]
    {
      var i := SlotOf(n, slots.Length);
      if n - dumped >= slots.Length {
        lost := lost + 1;
      }
      RecordTallies(slots.Length, n, dumped, old(lost), out, ops, sample);
      slots[i] := sample;
      ops := ops + [Record(sample)];
      n := n + 1;
      SlotsRecord(old(slots[..]), Recorded(old(ops)), sample);
      assert slots[..] == old(slots[..])[i := sample];
    }

    /** The samples from number `from` on, read back out of the slots. */
    method Collect(from: nat) returns (rec: seq<T>)
      requires Valid() && n - slots.Length <= from <= n
      ensures rec == Recorded(ops)[from..n]
    {
      rec := [];
      for idx := from to n
        invariant rec == Recorded(ops)[from..idx]
      {
        assert slots[..][SlotOf(idx, slots.Length)] == Recorded(ops)[idx];
        rec := rec + [slots[SlotOf(idx, slots.Length)]];
      }
    }

    method DumpRing()
      requires Valid()
      modifies this
      ensures Valid() && ops == old(ops) + [Dump]
    {
      var from := Max(dumped, n - slots.Length);
      var rec := Collect(from);
      DumpTallies(slots.Length, n, dumped, lost, out, ops);
      out := out + rec;
      dumped := n;
      ops := ops + [Dump];
    }
  }

  lemma SlotsRecord<T(!new)>(buf: seq<T>, all: seq<T>, sample: T)
    requires |buf| > 0 && SlotsHold(buf, all)
    ensures SlotsHold(buf[SlotOf(|all|, |buf|) := sample], all + [sample])
  {
    forall k: nat | |all| + 1 - |buf| <= k < |all| + 1
      ensures buf[SlotOf(|all|, |buf|) := sample][SlotOf(k, |buf|)] == (all + [sample])[k]
    {
      if k < |all| {
        DistinctSlots(k, |all|, |buf|);
      }
    }
  }

  /** Two live samples never share a slot. */
  lemma DistinctSlots(i: nat, j: nat, cap: nat)
    requires cap > 0 && i < j < i + cap
    ensures SlotOf(i, cap) != SlotOf(j, cap)
  {
    var q, r := i / cap, j / cap;
    Difference(cap, q, r);
    AtLeastOnce(cap, r - q);
    assert i == cap * q + SlotOf(i, cap) && j == cap * r + SlotOf(j, cap);
  }

  lemma Difference(cap: nat, q: int, r: int)
    ensures cap * r - cap * q == cap * (r - q)
  {
  }

  lemma AtLeastOnce(cap: nat, d: int)
    ensures d >= 1 ==> cap * d >= cap
    ensures d <= 0 ==> cap * d <= 0
  {
  }

  lemma PickConcat<T>(all: seq<T>, a: seq<nat>, b: seq<nat>)
    requires Below(a, |all|) && Below(b, |all|)
    ensures Below(a + b, |all|) && Pick(all, a + b) == Pick(all, a) + Pick(all, b)
  {
  }

  lemma PickGrows<T>(all: seq<T>, more: seq<T>, numbers: seq<nat>)
    requires Below(numbers, |all|)
    ensures Pick(all + more, numbers) == Pick(all, numbers)
  {
  }

  lemma PickRange<T>(all: seq<T>, first: nat, count: nat)
    requires first + count <= |all|
    ensures Below(Range(first, count), |all|) && Pick(all, Range(first, count)) == all[first..first + count]
  {
  }
}
