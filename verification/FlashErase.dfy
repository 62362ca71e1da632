/**
 What the erase command erases: the calls of flash_erase, taken together, name every
 sector of the planned interval once and no other.
 */
module FlashErase {
  import opened FlashPlan

  /** One call of flash_erase: a bank, its first and its last sector to be erased. */
  datatype Call = Call(bank: nat, lo: int, hi: int)

  /** The calls for the first k banks of a plan. */
  ghost function EraseCalls(p: Plan, k: nat): seq<Call>
    requires p.Ranges? && |p.lo| == |p.hi| && k <= |p.lo|
  {
    if k == 0 then []
    else EraseCalls(p, k - 1) + if p.lo[k - 1] >= 0 then [Call(k - 1, p.lo[k - 1], p.hi[k - 1])] else []
  }

  ghost predicate WorthErasing(p: Plan) {
    p.Ranges? && |p.lo| == |p.hi| && Count(p.lo, p.hi, |p.lo|) != 0
  }

  /** No erase of the first k banks failed. */
  ghost predicate NoFailure(p: Plan, answers: seq<int>, k: nat)
    requires p.Ranges? && k <= |p.lo| && k <= |answers|
  {
    forall b :: 0 <= b < k && p.lo[b] >= 0 ==> answers[b] == 0
  }

  ghost predicate FailedAt(p: Plan, answers: seq<int>, k: nat, rcode: int, calls: seq<Call>)
    requires p.Ranges? && |p.lo| == |p.hi| == |answers| && k < |p.lo|
  {
    p.lo[k] >= 0 && rcode == answers[k] && calls == EraseCalls(p, k + 1) && NoFailure(p, answers, k)
  }

  /** All planned ranges were erased, or those up to the first failure. */
  ghost predicate Erased(p: Plan, answers: seq<int>, rcode: int, calls: seq<Call>)
    requires p.Ranges? && |p.lo| == |p.hi|
  {
    && |answers| == |p.lo|
    && (rcode == 0 ==> calls == EraseCalls(p, |p.lo|) && NoFailure(p, answers, |p.lo|))
    && (rcode != 0 ==> exists k :: 0 <= k < |p.lo| && FailedAt(p, answers, k, rcode, calls))
  }

  // ------------------------------------------------------- what calls erase

  /** One of the calls names the sector. */
  ghost predicate Named(calls: seq<Call>, bank: nat, sector: nat) {
    exists j :: 0 <= j < |calls| && calls[j].bank == bank && calls[j].lo <= sector <= calls[j].hi
  }

  /** The address is in a sector that a call names. */
  ghost predicate Touched(banks: seq<Bank>, calls: seq<Call>, a: int) {
    exists b, i :: 0 <= b < |banks| && 0 <= i < |banks[b].start| && Named(calls, b, i) && InSector(banks[b], i, a)
  }

  /** How many sectors the calls name. */
  function Sectors(calls: seq<Call>): int {
    if calls == [] then 0
    else
      var last := calls[|calls| - 1];
      Sectors(calls[..|calls| - 1]) + (last.hi - last.lo + 1)
  }

  /** Every call has a bank of its own, in the order of the table. */
  ghost predicate InOrder(calls: seq<Call>) {
    forall i, j :: 0 <= i < j < |calls| ==> calls[i].bank < calls[j].bank
  }

  /** The calls erase the planned interval and nothing else, and no sector twice. */
  ghost predicate ErasesExactly(banks: seq<Bank>, first: int, last: int, calls: seq<Call>) {
    var p := Planned(banks, first, last);
    && p.Ranges? && |p.lo| == |p.hi| == |banks|
    && InOrder(calls) && Sectors(calls) == Count(p.lo, p.hi, |banks|)
    && forall a :: Touched(banks, calls, a) <==> first <= a < p.next
  }

  lemma {:induction false} CallsInOrder(p: Plan, k: nat)
    requires p.Ranges? && |p.lo| == |p.hi| && k <= |p.lo|
    ensures InOrder(EraseCalls(p, k)) && forall j :: 0 <= j < |EraseCalls(p, k)| ==> EraseCalls(p, k)[j].bank < k
  {
    if k > 0 {
      CallsInOrder(p, k - 1);
    }
  }

  lemma {:induction false} CallsCounted(p: Plan, k: nat)
    requires p.Ranges? && |p.lo| == |p.hi| && k <= |p.lo|
    ensures Sectors(EraseCalls(p, k)) == Count(p.lo, p.hi, k)
  {
    if k > 0 {
      CallsCounted(p, k - 1);
      var before := EraseCalls(p, k - 1);
      if p.lo[k - 1] >= 0 {
        assert EraseCalls(p, k)[..|before|] == before;
      } else {
        assert before + [] == before;
      }
    }
  }

  lemma {:induction false} NamedExact(p: Plan, k: nat, bank: nat, sector: nat)
    requires p.Ranges? && |p.lo| == |p.hi| && k <= |p.lo|
    ensures Named(EraseCalls(p, k), bank, sector) <==>
      bank < k && p.lo[bank] >= 0 && p.lo[bank] <= sector <= p.hi[bank]
  {
    if k > 0 {
      NamedExact(p, k - 1, bank, sector);
      var before, calls := EraseCalls(p, k - 1), EraseCalls(p, k);
      assert forall j :: 0 <= j < |before| ==> calls[j] == before[j];
      if p.lo[k - 1] >= 0 {
        assert calls[|before|] == Call(k - 1, p.lo[k - 1], p.hi[k - 1]);
      }
    }
  }

  /** A range of sectors holds the addresses from its start to its end. */
  lemma RangeIsSectors(b: Bank, l: nat, h: nat, a: int)
    requires ValidBank(b) && b.known && l <= h < |b.start|
    ensures InRange(b, l, h, a) <==> b.start[l] <= a <= SectorEnd(b, h)
  {
    if InRange(b, l, h, a) {
      var i :| l <= i <= h && InSector(b, i, a);
      SectorsAscend(b, l, i);
      SectorsAscend(b, i, h);
    }
    if b.start[l] <= a <= SectorEnd(b, h) {
      SectorsAscend(b, h, |b.start| - 1);
      var i := FindSector(b, l, a);
      if h < i {
        SectorsAscend(b, h, i);
      }
    }
  }

  lemma TouchedIsCovered(banks: seq<Bank>, q: Plan, calls: seq<Call>, k: nat, a: int)
    requires ValidBanks(banks) && q.Ranges? && |q.lo| == |q.hi| == k <= |banks| && WellFormedPlan(banks, k, q)
    requires forall b: nat, i: nat :: Named(calls, b, i) <==> b < k && q.lo[b] >= 0 && q.lo[b] <= i <= q.hi[b]
    ensures Touched(banks, calls, a) <==> Covered(banks, q, a)
  {
    if Touched(banks, calls, a) {
      var b, i :| 0 <= b < |banks| && 0 <= i < |banks[b].start| && Named(calls, b, i) && InSector(banks[b], i, a);
      assert InRange(banks[b], q.lo[b], q.hi[b], a);
      RangeIsSectors(banks[b], q.lo[b], q.hi[b], a);
    }
    if Covered(banks, q, a) {
      var b :| 0 <= b < |q.lo| && q.lo[b] >= 0 && banks[b].start[q.lo[b]] <= a <= SectorEnd(banks[b], q.hi[b]);
      RangeIsSectors(banks[b], q.lo[b], q.hi[b], a);
      var i :| q.lo[b] <= i <= q.hi[b] && InSector(banks[b], i, a);
      assert Named(calls, b, i);
    }
  }

  /** The calls for the first k banks touch what had been planned after k banks. */
  lemma CallsCover(banks: seq<Bank>, first: int, last: int, k: nat, a: int)
    requires ValidBanks(banks) && first <= last + 1 && k <= |banks| && Planned(banks, first, last).Ranges?
    ensures var (p, q) := (Planned(banks, first, last), PlanUpTo(banks, k, first, last));
      && q.Ranges? && |p.lo| == |p.hi| == |banks|
      && (Touched(banks, EraseCalls(p, k), a) <==> first <= a < q.next)
  {
    var p, q := Planned(banks, first, last), PlanUpTo(banks, k, first, last);
    PlanPrefix(banks, k, |banks|, first, last);
    PlanShape(banks, |banks|, first, last);
    PlanIsInterval(banks, k, first, last);
    forall b: nat, i: nat
      ensures Named(EraseCalls(p, k), b, i) <==> b < k && q.lo[b] >= 0 && q.lo[b] <= i <= q.hi[b]
    {
      NamedExact(p, k, b, i);
    }
    TouchedIsCovered(banks, q, EraseCalls(p, k), k, a);
  }

  lemma TouchedUpTo(banks: seq<Bank>, first: int, last: int, k: nat)
    requires ValidBanks(banks) && first <= last + 1 && k <= |banks| && Planned(banks, first, last).Ranges?
    ensures PlanUpTo(banks, k, first, last).Ranges?
    ensures |Planned(banks, first, last).lo| == |Planned(banks, first, last).hi| == |banks|
    ensures forall a :: Touched(banks, EraseCalls(Planned(banks, first, last), k), a) <==>
      first <= a < PlanUpTo(banks, k, first, last).next
  {
    CallsCover(banks, first, last, k, first);
    forall a
      ensures Touched(banks, EraseCalls(Planned(banks, first, last), k), a) <==>
        first <= a < PlanUpTo(banks, k, first, last).next
    {
      CallsCover(banks, first, last, k, a);
    }
  }

  lemma {:induction false} NothingPlanned(lo: seq<int>, hi: seq<int>, k: nat)
    requires k <= |lo| && k <= |hi| && forall j :: 0 <= j < k ==> lo[j] < 0
    ensures Count(lo, hi, k) == 0
  {
    if k > 0 {
      NothingPlanned(lo, hi, k - 1);
    }
  }

  lemma {:induction false} NothingBehind(banks: seq<Bank>, k: nat, first: int, last: int)
    requires first > last && k <= |banks|
    ensures var p := PlanUpTo(banks, k, first, last);
      p.Ranges? && |p.lo| == |p.hi| == k && p.next == first && forall j :: 0 <= j < k ==> p.lo[j] < 0
  {
    if k > 0 {
      NothingBehind(banks, k - 1, first, last);
    }
  }

  lemma WorthMeansRange(banks: seq<Bank>, first: int, last: int)
    requires WorthErasing(Planned(banks, first, last))
    ensures first <= last
  {
    if first > last {
      var p := Planned(banks, first, last);
      NothingBehind(banks, |banks|, first, last);
      NothingPlanned(p.lo, p.hi, |banks|);
    }
  }

  /** Without a failure every sector of the planned interval is erased, each of them once, and
      no other. */
  lemma EraseIsExact(banks: seq<Bank>, first: int, last: int, answers: seq<int>, calls: seq<Call>)
    requires ValidBanks(banks)
    requires var p := Planned(banks, first, last); WorthErasing(p) && Erased(p, answers, 0, calls)
    ensures ErasesExactly(banks, first, last, calls)
  {
    var p := Planned(banks, first, last);
    WorthMeansRange(banks, first, last);
    PlanShape(banks, |banks|, first, last);
    CallsInOrder(p, |banks|);
    CallsCounted(p, |banks|);
    TouchedUpTo(banks, first, last, |banks|);
  }

  /** When the erase of bank k is the first to fail, what had been planned up to that bank has
      been tried, and nothing behind it. */
  lemma FailureIsExact(
      banks: seq<Bank>, first: int, last: int, answers: seq<int>, k: nat, rcode: int, calls: seq<Call>)
    requires ValidBanks(banks)
    requires var p := Planned(banks, first, last);
      WorthErasing(p) && |p.lo| == |answers| && k < |p.lo| && FailedAt(p, answers, k, rcode, calls)
    ensures k < |banks| && PlanUpTo(banks, k + 1, first, last).Ranges? && InOrder(calls)
    ensures forall a :: Touched(banks, calls, a) <==> first <= a < PlanUpTo(banks, k + 1, first, last).next
  {
    WorthMeansRange(banks, first, last);
    PlanShape(banks, |banks|, first, last);
    CallsInOrder(Planned(banks, first, last), k + 1);
    TouchedUpTo(banks, first, last, k + 1);
  }
}
