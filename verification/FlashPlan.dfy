/**
 The NOR flash planner: an address range becomes one range of sectors per bank,
 or is refused. Addresses are 32-bit; the premises keep every sum below 2^32.
 */
module FlashPlan {

  /** flash_info_t: the start addresses of the sectors; `known` is
      flash_id != FLASH_UNKNOWN. */
  datatype Bank = Bank(known: bool, size: nat, start: seq<nat>)

  const ADDRESSES := 0x1_0000_0000

  /** Ascending, non-empty sectors; the bank does not end at the top address. */
  predicate ValidBank(b: Bank) {
    b.known ==>
      && 0 < |b.start| && b.start[0] + b.size < ADDRESSES
      && (forall i, j :: 0 <= i < j < |b.start| ==> b.start[i] < b.start[j])
      && b.start[|b.start| - 1] < b.start[0] + b.size
  }

  /** The ends of the sectors are 32-bit addresses, whatever the table holds. */
  predicate NoWrap(b: Bank) {
    b.start != [] ==>
      0 < b.start[0] + b.size <= ADDRESSES && forall i :: 0 < i < |b.start| ==> 0 < b.start[i] <= ADDRESSES
  }

  predicate ValidBanks(banks: seq<Bank>) {
    forall k :: 0 <= k < |banks| ==> ValidBank(banks[k])
  }

  predicate Disjoint(banks: seq<Bank>) {
    forall j, k :: 0 <= j < |banks| && 0 <= k < |banks| && j != k && banks[j].known && banks[k].known ==>
      BankEnd(banks[j]) < BankStart(banks[k]) || BankEnd(banks[k]) < BankStart(banks[j])
  }

  function BankStart(b: Bank): nat {
    if b.start == [] then 0 else b.start[0]
  }

  function BankEnd(b: Bank): int {
    BankStart(b) + b.size - 1
  }

  /** The last address of a sector. */
  function SectorEnd(b: Bank, i: nat): int
    requires i < |b.start|
  {
    if i == |b.start| - 1 then BankEnd(b) else b.start[i + 1] as int - 1
  }

  // ------------------------------------------------------------- one bank

  /** The first n sectors looked at: (s_first, s_last). */
  function Look(b: Bank, n: nat, first: int, last: int): (int, int)
    requires n <= |b.start|
  {
    if n == 0 then (-1, -1)
    else
      var (lo, hi) := Look(b, n - 1, first, last);
      var end := SectorEnd(b, n - 1);
      if first > end || last < b.start[n - 1] then (lo, hi)
      else (if first == b.start[n - 1] then n - 1 else lo, if last == end then n - 1 else hi)
  }

  datatype Choice = Select(lo: int, hi: int) | Skip | Refuse

  function Choose(b: Bank, first: int, last: int): Choice {
    if !b.known || b.start == [] then Skip
    else
      var (lo, hi0) := Look(b, |b.start|, first, last);
      if lo >= 0 then
        var hi := if hi0 < 0 && last > BankEnd(b) then |b.start| - 1 else hi0;
        if hi < 0 || hi < lo then Refuse else Select(lo, hi)
      else if BankStart(b) <= first < BankEnd(b) || hi0 >= 0 then Refuse
      else Skip
  }

  /** For a well-formed bank the search finds the one sector that starts at
      `first` and the one that ends at `last`. */
  lemma {:induction false} LookFinds(b: Bank, n: nat, first: int, last: int)
    requires ValidBank(b) && b.known && n <= |b.start| && first <= last
    ensures var (lo, hi) := Look(b, n, first, last);
      && -1 <= lo < n && -1 <= hi < n
      && (lo >= 0 ==> b.start[lo] == first)
      && (lo < 0 ==> forall i :: 0 <= i < n ==> b.start[i] != first)
      && (hi >= 0 ==> SectorEnd(b, hi) == last)
      && (hi < 0 ==> forall i :: 0 <= i < n ==> SectorEnd(b, i) != last)
  {
    if n > 0 {
      LookFinds(b, n - 1, first, last);
      assert b.start[n - 1] <= SectorEnd(b, n - 1);
    }
  }

  /** Sectors follow one another without gap or overlap. */
  lemma {:induction false} SectorsAscend(b: Bank, i: nat, j: nat)
    requires ValidBank(b) && b.known && i <= j < |b.start|
    ensures b.start[0] <= b.start[i] <= SectorEnd(b, i) <= SectorEnd(b, j) <= BankEnd(b)
    ensures i < j ==> SectorEnd(b, i) < b.start[j]
  {
    if i < j {
      SectorsAscend(b, i, j - 1);
    } else if i + 1 < |b.start| {
      assert b.start[i + 1] <= b.start[|b.start| - 1];
    }
  }

  /** What a bank does to the range: a selection starts at `first`, ends on a
      sector end that is `last` or the end of the bank, and is never empty. */
  lemma ChooseMeaning(b: Bank, first: int, last: int)
    requires ValidBank(b) && first <= last
    ensures Choose(b, first, last).Select? ==>
      var (lo, hi) := (Choose(b, first, last).lo, Choose(b, first, last).hi);
      && b.known && 0 <= lo <= hi < |b.start| && b.start[lo] == first
      && first <= SectorEnd(b, hi) <= last
      && (SectorEnd(b, hi) == last || (hi == |b.start| - 1 && last > BankEnd(b)))
  {
    if b.known {
      LookFinds(b, |b.start|, first, last);
      var (lo, hi) := Look(b, |b.start|, first, last);
      if lo >= 0 {
        SectorsAscend(b, lo, |b.start| - 1);
        if 0 <= hi < lo {
          SectorsAscend(b, hi, lo);
        }
        if lo <= hi {
          SectorsAscend(b, lo, hi);
        }
      }
    }
  }

  ghost predicate StartsIn(b: Bank, a: int) {
    exists i :: 0 <= i < |b.start| && b.start[i] == a
  }

  ghost predicate EndsIn(b: Bank, a: int) {
    exists i :: 0 <= i < |b.start| && SectorEnd(b, i) == a
  }

  /** What becomes of a range at one bank, exactly: it is taken up when it starts on a sector and
      ends on one or behind the bank; it passes the bank by when it neither starts nor lies in it
      nor ends on one of its sectors; all else is refused. */
  lemma ChooseExact(b: Bank, first: int, last: int)
    requires ValidBank(b) && first <= last
    ensures Choose(b, first, last).Select? <==>
      b.known && StartsIn(b, first) && (EndsIn(b, last) || last > BankEnd(b))
    ensures Choose(b, first, last).Skip? <==>
      !b.known || (!StartsIn(b, first) && !(BankStart(b) <= first < BankEnd(b)) && !EndsIn(b, last))
  {
    if b.known {
      LookFinds(b, |b.start|, first, last);
      var (lo, hi) := Look(b, |b.start|, first, last);
      if 0 <= hi < lo {
        SectorsAscend(b, hi, lo);
      }
    }
  }

  // ------------------------------------------------------------ all banks

  datatype Plan = Refused | Ranges(lo: seq<int>, hi: seq<int>, next: int)

  /** After k banks: the ranges chosen and the first address not yet planned. */
  function PlanUpTo(banks: seq<Bank>, k: nat, first: int, last: int): Plan
    requires k <= |banks|
  {
    if k == 0 then Ranges([], [], first) else Extend(PlanUpTo(banks, k - 1, first, last), banks[k - 1], last)
  }

  /** One more bank. */
  function Extend(p: Plan, b: Bank, last: int): Plan {
    match p
    case Refused => Refused
    case Ranges(lo, hi, next) =>
      if next > last then Ranges(lo + [-1], hi + [-1], next)
      else match Choose(b, next, last)
        case Refuse => Refused
        case Skip => Ranges(lo + [-1], hi + [-1], next)
        case Select(l, h) =>
          Ranges(lo + [l], hi + [h], 1 + if 0 <= h < |b.start| then SectorEnd(b, h) else 0)
  }

  function Planned(banks: seq<Bank>, first: int, last: int): Plan {
    PlanUpTo(banks, |banks|, first, last)
  }

  /** The number of sectors in the first k ranges. */
  function Count(lo: seq<int>, hi: seq<int>, k: nat): int
    requires k <= |lo| && k <= |hi|
  {
    if k == 0 then 0 else Count(lo, hi, k - 1) + if lo[k - 1] >= 0 then hi[k - 1] - lo[k - 1] + 1 else 0
  }

  ghost predicate WellFormedPlan(banks: seq<Bank>, k: nat, p: Plan)
    requires k <= |banks|
  {
    p.Ranges? ==>
      && |p.lo| == |p.hi| == k
      && forall b :: 0 <= b < k ==>
        || (p.lo[b] == -1 && p.hi[b] == -1)
        || (banks[b].known && 0 <= p.lo[b] <= p.hi[b] < |banks[b].start|)
  }

  /** The addresses of the selected sectors. */
  ghost predicate Covered(banks: seq<Bank>, p: Plan, a: int)
    requires p.Ranges? && |p.lo| <= |banks| && WellFormedPlan(banks, |p.lo|, p)
  {
    exists b :: 0 <= b < |p.lo| && p.lo[b] >= 0 && banks[b].start[p.lo[b]] <= a <= SectorEnd(banks[b], p.hi[b])
  }

  lemma {:induction false} PlanShape(banks: seq<Bank>, k: nat, first: int, last: int)
    requires ValidBanks(banks) && k <= |banks| && first <= last + 1
    ensures var p := PlanUpTo(banks, k, first, last);
      WellFormedPlan(banks, k, p) && (p.Ranges? ==> first <= p.next <= last + 1)
  {
    if k > 0 {
      PlanShape(banks, k - 1, first, last);
      ExtendShape(banks, k, first, last, PlanUpTo(banks, k - 1, first, last));
    }
  }

  lemma ExtendShape(banks: seq<Bank>, k: nat, first: int, last: int, p: Plan)
    requires ValidBanks(banks) && 0 < k <= |banks|
    requires WellFormedPlan(banks, k - 1, p) && (p.Ranges? ==> first <= p.next <= last + 1)
    ensures var r := Extend(p, banks[k - 1], last);
      WellFormedPlan(banks, k, r) && (r.Ranges? ==> first <= r.next <= last + 1)
  {
    if p.Ranges? && p.next <= last {
      ChooseMeaning(banks[k - 1], p.next, last);
    }
  }

  /** Main theorem: what is planned is exactly one interval, from the start
      address to the address before `next`, and never goes beyond the range. */
  lemma {:induction false} PlanIsInterval(banks: seq<Bank>, k: nat, first: int, last: int)
    requires ValidBanks(banks) && k <= |banks| && first <= last + 1
    requires PlanUpTo(banks, k, first, last).Ranges?
    ensures var p := PlanUpTo(banks, k, first, last);
      && WellFormedPlan(banks, k, p) && first <= p.next <= last + 1
      && forall a :: Covered(banks, p, a) <==> first <= a < p.next
  {
    PlanShape(banks, k, first, last);
    if k > 0 {
      PlanShape(banks, k - 1, first, last);
      PlanIsInterval(banks, k - 1, first, last);
      var p, q := PlanUpTo(banks, k, first, last), PlanUpTo(banks, k - 1, first, last);
      LastRange(banks, k, first, last);
      forall a
        ensures Covered(banks, p, a) <==> first <= a < p.next
      {
        CoveredStep(banks, p, q, k, a);
      }
    }
  }

  /** The ranges of the first k banks are those of the plan of k banks. */
  ghost predicate Begins(q: Plan, p: Plan, k: nat) {
    && p.Ranges? && q.Ranges? && |q.lo| == |q.hi| == k <= |p.lo| == |p.hi|
    && forall b :: 0 <= b < k ==> q.lo[b] == p.lo[b] && q.hi[b] == p.hi[b]
  }

  lemma {:induction false} PlanPrefix(banks: seq<Bank>, k: nat, n: nat, first: int, last: int)
    requires ValidBanks(banks) && k <= n <= |banks| && first <= last + 1
    requires PlanUpTo(banks, n, first, last).Ranges?
    ensures Begins(PlanUpTo(banks, k, first, last), PlanUpTo(banks, n, first, last), k)
    decreases n
  {
    PlanShape(banks, n, first, last);
    if k < n {
      PrefixStep(banks, n, first, last);
      PlanPrefix(banks, k, n - 1, first, last);
    }
  }

  lemma PrefixStep(banks: seq<Bank>, n: nat, first: int, last: int)
    requires ValidBanks(banks) && 0 < n <= |banks| && first <= last + 1
    requires PlanUpTo(banks, n, first, last).Ranges?
    ensures Begins(PlanUpTo(banks, n - 1, first, last), PlanUpTo(banks, n, first, last), n - 1)
  {
    LastRange(banks, n, first, last);
    var p, q := PlanUpTo(banks, n, first, last), PlanUpTo(banks, n - 1, first, last);
    assert forall b :: 0 <= b < n - 1 ==> p.lo[..n - 1][b] == p.lo[b] && p.hi[..n - 1][b] == p.hi[b];
  }

  /** What bank k - 1 adds: nothing, or the addresses from where the plan stood. */
  lemma LastRange(banks: seq<Bank>, k: nat, first: int, last: int)
    requires ValidBanks(banks) && 0 < k <= |banks| && first <= last + 1
    requires PlanUpTo(banks, k, first, last).Ranges?
    ensures PlanUpTo(banks, k - 1, first, last).Ranges?
    ensures var p, q := PlanUpTo(banks, k, first, last), PlanUpTo(banks, k - 1, first, last);
      && WellFormedPlan(banks, k, p) && WellFormedPlan(banks, k - 1, q)
      && p.lo[..k - 1] == q.lo && p.hi[..k - 1] == q.hi
      && if p.lo[k - 1] < 0 then p.next == q.next
         else banks[k - 1].start[p.lo[k - 1]] == q.next && SectorEnd(banks[k - 1], p.hi[k - 1]) == p.next - 1 >= q.next
  {
    PlanShape(banks, k, first, last);
    PlanShape(banks, k - 1, first, last);
    var q := PlanUpTo(banks, k - 1, first, last);
    if q.next <= last {
      ChooseMeaning(banks[k - 1], q.next, last);
    }
  }

  lemma CoveredStep(banks: seq<Bank>, p: Plan, q: Plan, k: nat, a: int)
    requires 0 < k <= |banks| && p.Ranges? && q.Ranges?
    requires WellFormedPlan(banks, k, p) && WellFormedPlan(banks, k - 1, q)
    requires p.lo[..k - 1] == q.lo && p.hi[..k - 1] == q.hi
    ensures Covered(banks, p, a) <==>
      Covered(banks, q, a) ||
      (p.lo[k - 1] >= 0 && banks[k - 1].start[p.lo[k - 1]] <= a <= SectorEnd(banks[k - 1], p.hi[k - 1]))
  {
    assert forall b :: 0 <= b < k - 1 ==> p.lo[b] == q.lo[b] && p.hi[b] == q.hi[b];
    if Covered(banks, q, a) {
      var b :| 0 <= b < |q.lo| && q.lo[b] >= 0 && banks[b].start[q.lo[b]] <= a <= SectorEnd(banks[b], q.hi[b]);
      assert p.lo[b] == q.lo[b] && p.hi[b] == q.hi[b];
    }
  }

  // ----------------------------------------------- banks in address order

  /** All banks are known and follow one another in the table as in memory. */
  ghost predicate Contiguous(banks: seq<Bank>) {
    && banks != [] && ValidBanks(banks)
    && (forall k :: 0 <= k < |banks| ==> banks[k].known)
    && (forall j, k :: 0 <= j < k < |banks| && k == j + 1 ==> BankStart(banks[k]) == BankEnd(banks[j]) + 1)
  }

  ghost predicate IsStart(banks: seq<Bank>, k: nat, a: int)
    requires k <= |banks|
  {
    exists b, i :: 0 <= b < k && 0 <= i < |banks[b].start| && banks[b].start[i] == a
  }

  ghost predicate IsEnd(banks: seq<Bank>, a: int) {
    exists b, i :: 0 <= b < |banks| && 0 <= i < |banks[b].start| && SectorEnd(banks[b], i) == a
  }

  function FlashEnd(banks: seq<Bank>): int
    requires banks != []
  {
    BankEnd(banks[|banks| - 1])
  }

  lemma {:induction false} BanksAscend(banks: seq<Bank>, j: nat, k: nat)
    requires Contiguous(banks) && j <= k < |banks|
    ensures BankStart(banks[j]) <= BankEnd(banks[j]) <= BankEnd(banks[k]) <= FlashEnd(banks)
    ensures j < k ==> BankEnd(banks[j]) < BankStart(banks[k])
    decreases |banks| - j
  {
    SectorsAscend(banks[j], 0, |banks[j].start| - 1);
    if j < k {
      BanksAscend(banks, j + 1, k);
    } else if k < |banks| - 1 {
      BanksAscend(banks, j + 1, |banks| - 1);
    }
  }

  /** An address inside a bank starts or ends a sector only in that bank. */
  lemma OnlyInBank(banks: seq<Bank>, k: nat, a: int)
    requires Contiguous(banks) && k < |banks| && BankStart(banks[k]) <= a <= BankEnd(banks[k])
    ensures IsStart(banks, |banks|, a) ==> exists i :: 0 <= i < |banks[k].start| && banks[k].start[i] == a
    ensures IsEnd(banks, a) ==> exists i :: 0 <= i < |banks[k].start| && SectorEnd(banks[k], i) == a
  {
    forall b, i | 0 <= b < |banks| && 0 <= i < |banks[b].start| &&
                  (banks[b].start[i] == a || SectorEnd(banks[b], i) == a)
      ensures b == k
    {
      SectorsAscend(banks[b], i, |banks[b].start| - 1);
      if b < k {
        BanksAscend(banks, b, k);
      } else if k < b {
        BanksAscend(banks, k, b);
      }
    }
  }

  /** Where the planner stands after k banks: not begun, in the middle at the
      start of bank k, done, or refused for good reason. */
  ghost predicate Phase(banks: seq<Bank>, k: nat, first: int, last: int, p: Plan)
    requires banks != [] && k <= |banks|
  {
    match p
    case Refused => !(IsStart(banks, |banks|, first) && (IsEnd(banks, last) || last > FlashEnd(banks)))
    case Ranges(_, _, next) =>
      || (next == first && !IsStart(banks, k, first))
      || (IsStart(banks, |banks|, first) && 0 < k && first < next <= last && next == BankEnd(banks[k - 1]) + 1)
      || (IsStart(banks, |banks|, first) && next == last + 1 && IsEnd(banks, last))
  }

  lemma PhaseNotBegun(banks: seq<Bank>, k: nat, first: int, last: int)
    requires Contiguous(banks) && k < |banks| && first <= last && !IsStart(banks, k, first)
    ensures match Choose(banks[k], first, last)
      case Skip => !IsStart(banks, k + 1, first)
      case Refuse => !(IsStart(banks, |banks|, first) && (IsEnd(banks, last) || last > FlashEnd(banks)))
      case Select(_, hi) => IsStart(banks, |banks|, first)
  {
    var b := banks[k];
    LookFinds(b, |b.start|, first, last);
    BanksAscend(banks, k, k);
    var (lo, hi) := Look(b, |b.start|, first, last);
    ChooseMeaning(b, first, last);
    if lo >= 0 {
      SectorsAscend(b, lo, |b.start| - 1);
      if hi < 0 && last <= BankEnd(b) {
        OnlyInBank(banks, k, last);
      }
      if 0 <= hi < lo {
        SectorsAscend(b, hi, lo);
      }
    } else if Choose(b, first, last) == Refuse {
      if BankStart(b) <= first <= BankEnd(b) {
        OnlyInBank(banks, k, first);
      } else {
        SectorsAscend(b, hi, |b.start| - 1);
        forall c, i | k <= c < |banks| && 0 <= i < |banks[c].start|
          ensures banks[c].start[i] != first
        {
          BanksAscend(banks, k, c);
          SectorsAscend(banks[c], i, |banks[c].start| - 1);
        }
      }
    }
  }

  lemma PhaseBegun(banks: seq<Bank>, k: nat, last: int)
    requires Contiguous(banks) && k < |banks| && BankStart(banks[k]) <= last
    ensures match Choose(banks[k], BankStart(banks[k]), last)
      case Skip => false
      case Refuse => !IsEnd(banks, last) && last <= FlashEnd(banks)
      case Select(_, hi) => true
  {
    var b := banks[k];
    var first := BankStart(b);
    LookFinds(b, |b.start|, first, last);
    BanksAscend(banks, k, k);
    var (lo, hi) := Look(b, |b.start|, first, last);
    assert b.start[0] == first;
    if hi < 0 && last <= BankEnd(b) {
      OnlyInBank(banks, k, last);
    }
  }

  lemma PhaseStep(banks: seq<Bank>, k: nat, first: int, last: int, p: Plan)
    requires Contiguous(banks) && 0 < k <= |banks| && p.Ranges? && first <= p.next <= last
    requires Phase(banks, k - 1, first, last, p)
    ensures Phase(banks, k, first, last, Extend(p, banks[k - 1], last))
  {
    ChooseMeaning(banks[k - 1], p.next, last);
    if p.next == first && !IsStart(banks, k - 1, first) {
      PhaseNotBegun(banks, k - 1, first, last);
    } else {
      assert BankStart(banks[k - 1]) == p.next;
      PhaseBegun(banks, k - 1, last);
    }
  }

  lemma {:induction false} PhaseHolds(banks: seq<Bank>, k: nat, first: int, last: int)
    requires Contiguous(banks) && k <= |banks| && first <= last
    ensures Phase(banks, k, first, last, PlanUpTo(banks, k, first, last))
  {
    if k > 0 {
      PhaseHolds(banks, k - 1, first, last);
      PlanShape(banks, k - 1, first, last);
      var p := PlanUpTo(banks, k - 1, first, last);
      if p.Ranges? && p.next <= last {
        PhaseStep(banks, k, first, last, p);
      }
    }
  }

  /** For banks in address order the planner does something exactly when the
      range starts on a sector and ends on one, or ends behind the flash; in the
      latter case it plans, without complaint, only up to the end of the flash. */
  lemma ContiguousExact(banks: seq<Bank>, first: int, last: int)
    requires Contiguous(banks) && first <= last
    ensures var p := Planned(banks, first, last);
      && (p.Ranges? && p.next > first <==>
          IsStart(banks, |banks|, first) && (IsEnd(banks, last) || last > FlashEnd(banks)))
      && (p.Ranges? && p.next > first ==> p.next == 1 + if last <= FlashEnd(banks) then last else FlashEnd(banks))
  {
    PhaseHolds(banks, |banks|, first, last);
    PlanShape(banks, |banks|, first, last);
    if IsEnd(banks, last) {
      var b, i :| 0 <= b < |banks| && 0 <= i < |banks[b].start| && SectorEnd(banks[b], i) == last;
      SectorsAscend(banks[b], i, |banks[b].start| - 1);
      BanksAscend(banks, b, |banks| - 1);
    }
  }

  // --------------------------------------------------- start and length form

  predicate InSector(b: Bank, i: nat, a: int)
    requires i < |b.start|
  {
    b.start[i] <= a <= SectorEnd(b, i)
  }

  /** The first of n sectors that contains the address. */
  function FindIn(b: Bank, n: nat, a: int): int
    requires n <= |b.start|
  {
    if n == 0 then -1
    else if FindIn(b, n - 1, a) >= 0 then FindIn(b, n - 1, a)
    else if InSector(b, n - 1, a) then n - 1
    else -1
  }

  lemma {:induction false} FindInMeaning(b: Bank, n: nat, a: int)
    requires n <= |b.start|
    ensures -1 <= FindIn(b, n, a) < n
    ensures FindIn(b, n, a) >= 0 ==> InSector(b, FindIn(b, n, a), a)
    ensures FindIn(b, n, a) < 0 ==> forall i :: 0 <= i < n ==> !InSector(b, i, a)
  {
    if n > 0 {
      FindInMeaning(b, n - 1, a);
    }
  }

  /** flash_sect_roundb over the first k banks: the end of the first sector that
      contains the address, or -1 when none does. */
  function Rounded(banks: seq<Bank>, k: nat, a: int): int
    requires k <= |banks|
  {
    if k == 0 then -1
    else if Rounded(banks, k - 1, a) >= 0 then Rounded(banks, k - 1, a)
    else
      var i := FindIn(banks[k - 1], |banks[k - 1].start|, a);
      if 0 <= i < |banks[k - 1].start| then SectorEnd(banks[k - 1], i) else -1
  }

  /** Rounding finds nothing exactly when no sector contains the address. */
  lemma {:induction false} RoundedNone(banks: seq<Bank>, k: nat, a: int)
    requires k <= |banks| && forall b :: 0 <= b < |banks| ==> NoWrap(banks[b])
    ensures Rounded(banks, k, a) < 0 <==>
      forall b, i :: 0 <= b < k && 0 <= i < |banks[b].start| ==> !InSector(banks[b], i, a)
  {
    if k > 0 {
      RoundedNone(banks, k - 1, a);
      FindInMeaning(banks[k - 1], |banks[k - 1].start|, a);
      var i := FindIn(banks[k - 1], |banks[k - 1].start|, a);
      assert i >= 0 ==> NoWrap(banks[k - 1]) && SectorEnd(banks[k - 1], i) >= 0;
    }
  }

  /** An unknown bank has no sectors. */
  ghost predicate Mapped(banks: seq<Bank>) {
    && ValidBanks(banks) && Disjoint(banks)
    && forall k :: 0 <= k < |banks| ==> !banks[k].known ==> banks[k].start == []
  }

  lemma ElsewhereNotFound(banks: seq<Bank>, j: nat, k: nat, a: int)
    requires Mapped(banks) && j < |banks| && k < |banks| && j != k
    requires banks[k].known && BankStart(banks[k]) <= a <= BankEnd(banks[k])
    ensures forall i :: 0 <= i < |banks[j].start| ==>
      !InSector(banks[j], i, a) && banks[j].start[i] != a && SectorEnd(banks[j], i) != a
    ensures banks[j].known ==> !(BankStart(banks[j]) <= a < BankEnd(banks[j]))
  {
    forall i | 0 <= i < |banks[j].start|
      ensures !InSector(banks[j], i, a) && banks[j].start[i] != a && SectorEnd(banks[j], i) != a
    {
      SectorsAscend(banks[j], i, |banks[j].start| - 1);
    }
  }

  /** An address is in one sector only. */
  lemma FoundInBank(b: Bank, h: nat, a: int)
    requires ValidBank(b) && b.known && h < |b.start| && InSector(b, h, a)
    ensures FindIn(b, |b.start|, a) == h && BankStart(b) <= a <= BankEnd(b)
  {
    FindInMeaning(b, |b.start|, a);
    SectorsAscend(b, h, |b.start| - 1);
    var i := FindIn(b, |b.start|, a);
    if i < h {
      SectorsAscend(b, i, h);
    } else if h < i {
      SectorsAscend(b, h, i);
    }
  }

  lemma {:induction false} HeldBy(b: Bank, n: nat, a: int) returns (i: nat)
    requires ValidBank(b) && b.known && 0 < n <= |b.start| && b.start[0] <= a < b.start[0] + b.size
    requires n < |b.start| ==> a < b.start[n]
    ensures i < n && InSector(b, i, a)
  {
    if b.start[n - 1] <= a {
      i := n - 1;
    } else {
      i := HeldBy(b, n - 1, a);
    }
  }

  /** The sectors are the bank: every one of its `size` addresses is in exactly one of them, and
      no other address is. */
  lemma SectorsTile(b: Bank, a: int)
    requires ValidBank(b) && b.known
    ensures (exists i :: 0 <= i < |b.start| && InSector(b, i, a)) <==> b.start[0] <= a < b.start[0] + b.size
    ensures forall i, j :: 0 <= i < |b.start| && 0 <= j < |b.start| && InSector(b, i, a) && InSector(b, j, a) ==> i == j
  {
    if b.start[0] <= a < b.start[0] + b.size {
      var h := HeldBy(b, |b.start|, a);
    }
    forall i | 0 <= i < |b.start| && InSector(b, i, a)
      ensures i == FindIn(b, |b.start|, a) && b.start[0] <= a < b.start[0] + b.size
    {
      FoundInBank(b, i, a);
    }
  }

  lemma {:induction false} RoundedInBank(banks: seq<Bank>, n: nat, k: nat, h: nat, a: int)
    requires Mapped(banks) && n <= |banks| && k < |banks| && h < |banks[k].start| && InSector(banks[k], h, a)
    ensures Rounded(banks, n, a) == if n <= k then -1 else SectorEnd(banks[k], h)
  {
    if n > 0 {
      RoundedInBank(banks, n - 1, k, h, a);
      FoundInBank(banks[k], h, a);
      if n - 1 != k {
        ElsewhereNotFound(banks, n - 1, k, a);
        FindInMeaning(banks[n - 1], |banks[n - 1].start|, a);
      }
    }
  }

  /** The plan that selects one range in one bank. */
  ghost predicate OnlyRange(p: Plan, n: nat, k: nat, l: nat, h: nat) {
    && p.Ranges? && |p.lo| == |p.hi| == n
    && forall j :: 0 <= j < n ==>
      p.lo[j] == (if j == k then l else -1) && p.hi[j] == (if j == k then h else -1)
  }

  lemma ChooseElsewhere(banks: seq<Bank>, j: nat, k: nat, l: nat, h: nat)
    requires Mapped(banks) && j < |banks| && k < |banks| && j != k && l <= h < |banks[k].start|
    ensures Choose(banks[j], banks[k].start[l], SectorEnd(banks[k], h)) == Skip
  {
    var (first, last) := (banks[k].start[l], SectorEnd(banks[k], h));
    SectorsAscend(banks[k], l, |banks[k].start| - 1);
    SectorsAscend(banks[k], l, h);
    SectorsAscend(banks[k], h, |banks[k].start| - 1);
    ElsewhereNotFound(banks, j, k, first);
    ElsewhereNotFound(banks, j, k, last);
    if banks[j].known {
      LookFinds(banks[j], |banks[j].start|, first, last);
    }
  }

  lemma ChooseHere(b: Bank, l: nat, h: nat)
    requires ValidBank(b) && b.known && l <= h < |b.start|
    ensures Choose(b, b.start[l], SectorEnd(b, h)) == Select(l, h)
  {
    var (first, last) := (b.start[l] as int, SectorEnd(b, h));
    SectorsAscend(b, l, h);
    LookFinds(b, |b.start|, first, last);
    var (lo, hi) := Look(b, |b.start|, first, last);
    assert b.start[l] == first && SectorEnd(b, h) == last;
    if h < hi {
      SectorsAscend(b, h, hi);
    }
  }

  lemma ChooseInPlan(banks: seq<Bank>, j: nat, k: nat, l: nat, h: nat)
    requires Mapped(banks) && j < |banks| && k < |banks| && l <= h < |banks[k].start|
    ensures banks[k].start[l] <= SectorEnd(banks[k], h)
    ensures Choose(banks[j], banks[k].start[l], SectorEnd(banks[k], h)) == if j == k then Select(l, h) else Skip
  {
    SectorsAscend(banks[k], l, h);
    if j == k {
      ChooseHere(banks[k], l, h);
    } else {
      ChooseElsewhere(banks, j, k, l, h);
    }
  }

  lemma {:induction false} PlanInBank(banks: seq<Bank>, n: nat, k: nat, l: nat, h: nat)
    requires Mapped(banks) && n <= |banks| && k < |banks| && l <= h < |banks[k].start|
    ensures var (first, last) := (banks[k].start[l], SectorEnd(banks[k], h));
      var p := PlanUpTo(banks, n, first, last);
      OnlyRange(p, n, k, l, h) && p.next == if n <= k then first else last + 1
  {
    if n > 0 {
      PlanInBank(banks, n - 1, k, l, h);
      ChooseInPlan(banks, n - 1, k, l, h);
      OnlyRangeStep(banks, n, banks[k].start[l], SectorEnd(banks[k], h), k, l, h);
    }
  }

  lemma OnlyRangeStep(banks: seq<Bank>, n: nat, first: int, last: int, k: nat, l: nat, h: nat)
    requires 0 < n <= |banks| && first <= last
    requires Choose(banks[n - 1], first, last) == if n - 1 == k then Select(l, h) else Skip
    requires n - 1 == k ==> h < |banks[k].start| && SectorEnd(banks[k], h) == last
    requires OnlyRange(PlanUpTo(banks, n - 1, first, last), n - 1, k, l, h)
    requires PlanUpTo(banks, n - 1, first, last).next == if n - 1 <= k then first else last + 1
    ensures OnlyRange(PlanUpTo(banks, n, first, last), n, k, l, h)
    ensures PlanUpTo(banks, n, first, last).next == if n <= k then first else last + 1
  {
  }

  ghost predicate InRange(b: Bank, l: nat, h: nat, a: int) {
    h < |b.start| && exists i :: l <= i <= h && InSector(b, i, a)
  }

  /** `start +len` with start on a sector boundary and the range inside one bank:
      the end is rounded up to its sector end, the planner accepts, and it selects
      the least set of sectors: every address asked for is in one of them and
      each of them contains an address asked for. */
  lemma LengthFormIsLeast(banks: seq<Bank>, k: nat, l: nat, len: nat) returns (h: nat)
    requires Mapped(banks) && k < |banks| && l < |banks[k].start| && len >= 1
    requires banks[k].start[l] + len - 1 <= BankEnd(banks[k])
    ensures l <= h < |banks[k].start|
    ensures var b := banks[k];
      var (first, asked) := (b.start[l], b.start[l] + len - 1);
      var last := Rounded(banks, |banks|, asked);
      && last == SectorEnd(b, h)
      && OnlyRange(Planned(banks, first, last), |banks|, k, l, h)
      && (forall a :: first <= a <= asked ==> InRange(b, l, h, a))
      && (forall i :: l <= i <= h ==> first <= b.start[i] <= asked)
  {
    var b := banks[k];
    var (first, asked) := (b.start[l], b.start[l] + len - 1);
    h := FindSector(b, l, asked);
    RoundedInBank(banks, |banks|, k, h, asked);
    PlanInBank(banks, |banks|, k, l, h);
    LeastInBank(b, l, h, asked);
  }

  lemma LeastInBank(b: Bank, l: nat, h: nat, asked: int)
    requires ValidBank(b) && b.known && l <= h < |b.start| && b.start[l] <= asked && InSector(b, h, asked)
    ensures forall a :: b.start[l] <= a <= asked ==> InRange(b, l, h, a)
    ensures forall i :: l <= i <= h ==> b.start[l] <= b.start[i] <= asked
  {
    forall i | l <= i <= h
      ensures b.start[l] <= b.start[i] <= asked
    {
      SectorsAscend(b, l, i);
      SectorsAscend(b, i, h);
    }
    forall a | b.start[l] <= a <= asked
      ensures InRange(b, l, h, a)
    {
      SectorsAscend(b, h, |b.start| - 1);
      var i := FindSector(b, l, a);
      if h < i {
        SectorsAscend(b, h, i);
      }
    }
  }

  /** Every address of the bank from sector l on is in one of its sectors. */
  lemma FindSector(b: Bank, l: nat, a: int) returns (h: nat)
    requires ValidBank(b) && b.known && l < |b.start| && b.start[l] <= a <= BankEnd(b)
    ensures l <= h < |b.start| && InSector(b, h, a)
  {
    h := l;
    while a > SectorEnd(b, h)
      invariant l <= h < |b.start| && b.start[h] <= a
      decreases |b.start| - h
    {
      h := h + 1;
    }
  }
}
