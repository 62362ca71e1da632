/**
 The loops of the flash commands: planning the sector ranges into two tables,
 rounding an end address, and erasing what was planned.
 */
module FlashTool {
  import opened FlashErase
  import opened FlashPlan

  class FlashCommands {
    /** flash_info */
    const banks: seq<Bank>

    constructor (banks: seq<Bank>)
      ensures this.banks == banks
    {
      this.banks := banks;
    }

    /** flash_fill_sect_ranges: s_first, s_last and the number of sectors. */
    method FillSectRanges(first: int, last: int, sFirst: array<int>, sLast: array<int>)
      returns (ok: bool, count: int)
      requires ValidBanks(banks)
      requires sFirst != sLast && sFirst.Length == sLast.Length == |banks|
      modifies sFirst, sLast
      ensures ok == Planned(banks, first, last).Ranges?
      ensures ok ==> var p := Planned(banks, first, last);
        sFirst[..] == p.lo && sLast[..] == p.hi && count == Count(p.lo, p.hi, |banks|)
    {
      for k := 0 to |banks|
        invariant forall j :: 0 <= j < k ==> sFirst[j] == -1 && sLast[j] == -1
      {
        sFirst[k] := -1;
        sLast[k] := -1;
      }
      var bank;
      ghost var p;
      ok, bank, count, p := PlanBanks(first, last, sFirst, sLast);
      if ok {
        Idle(banks, bank, first, last, |banks|);
        TablesComplete(p, sFirst, sLast, bank, count);
      }
    }

    lemma TablesComplete(p: Plan, sFirst: array<int>, sLast: array<int>, k: nat, count: int)
      requires InTables(p, sFirst, sLast, k, count) && sFirst.Length == sLast.Length
      requires forall j :: k <= j < sFirst.Length ==> sFirst[j] == -1 && sLast[j] == -1
      ensures var n := sFirst.Length - k;
        && sFirst[..] == p.lo + Blank(n) && sLast[..] == p.hi + Blank(n)
        && count == Count(p.lo + Blank(n), p.hi + Blank(n), k + n)
    {
      CountIdle(p.lo, p.hi, sFirst.Length - k, sFirst.Length - k);
    }

    /** The loop over the banks: it stops at the first refusal and as soon as the
        whole range is planned. */
    method PlanBanks(first0: int, last: int, sFirst: array<int>, sLast: array<int>)
      returns (ok: bool, bank: nat, count: int, ghost p: Plan)
      requires ValidBanks(banks)
      requires sFirst != sLast && sFirst.Length == sLast.Length == |banks|
      requires forall j :: 0 <= j < |banks| ==> sFirst[j] == -1 && sLast[j] == -1
      modifies sFirst, sLast
      ensures bank <= |banks| && p == PlanUpTo(banks, bank, first0, last)
      ensures !ok ==> Planned(banks, first0, last) == Refused
      ensures ok ==> InTables(p, sFirst, sLast, bank, count) && (bank < |banks| ==> p.next > last)
      ensures ok ==> forall j :: bank <= j < |banks| ==> sFirst[j] == -1 && sLast[j] == -1
    {
      var first := first0;
      bank, count, ok, p := 0, 0, true, Ranges([], [], first0);
      while bank < |banks| && first <= last
        invariant bank <= |banks| && ok && p == PlanUpTo(banks, bank, first0, last)
        invariant forall j :: bank <= j < |banks| ==> sFirst[j] == -1 && sLast[j] == -1
        invariant InTables(p, sFirst, sLast, bank, count) && p.next == first
      {
        ok, first, count, p := AddBank(bank, first, last, sFirst, sLast, count, first0, p);
        bank := bank + 1;
        if !ok {
          RefusalStays(banks, bank, first0, last);
          return;
        }
      }
    }

    /** One turn of that loop. */
    method AddBank(bank: nat, first: int, last: int, sFirst: array<int>, sLast: array<int>, count: int,
                   ghost first0: int, ghost p: Plan)
      returns (ok: bool, next: int, count': int, ghost p': Plan)
      requires ValidBanks(banks) && bank < |banks| && first <= last
      requires sFirst != sLast && sFirst.Length == sLast.Length == |banks|
      requires forall j :: bank <= j < |banks| ==> sFirst[j] == -1 && sLast[j] == -1
      requires p == PlanUpTo(banks, bank, first0, last)
      requires InTables(p, sFirst, sLast, bank, count) && p.next == first
      modifies sFirst, sLast
      ensures p' == PlanUpTo(banks, bank + 1, first0, last)
      ensures if ok then InTables(p', sFirst, sLast, bank + 1, count') && p'.next == next else p' == Refused
      ensures forall j :: bank < j < |banks| ==> sFirst[j] == -1 && sLast[j] == -1
    {
      PlanStep(banks, bank, first0, last, p);
      var added;
      ok, next, added := PlanBank(bank, first, last, sFirst, sLast);
      count' := count + added;
      p' := PlanUpTo(banks, bank + 1, first0, last);
      if ok {
        assert p'.lo == p.lo + [sFirst[bank]] && p'.hi == p.hi + [sLast[bank]];
      }
    }

    lemma PlanStep(banks: seq<Bank>, k: nat, first: int, last: int, p: Plan)
      requires k < |banks| && p == PlanUpTo(banks, k, first, last)
      requires p.Ranges? && p.next <= last && |p.lo| == |p.hi| == k
      ensures var p' := PlanUpTo(banks, k + 1, first, last);
        match Choose(banks[k], p.next, last)
        case Refuse => p' == Refused
        case Skip =>
          p' == Ranges(p.lo + [-1], p.hi + [-1], p.next) && Count(p'.lo, p'.hi, k + 1) == Count(p.lo, p.hi, k)
        case Select(l, h) =>
          && p'.Ranges? && p'.lo == p.lo + [l] && p'.hi == p.hi + [h]
          && (0 <= h < |banks[k].start| ==> p'.next == SectorEnd(banks[k], h) + 1)
          && Count(p'.lo, p'.hi, k + 1) == Count(p.lo, p.hi, k) + if l >= 0 then h - l + 1 else 0
    {
      match Choose(banks[k], p.next, last)
      case Refuse =>
      case Skip => CountStep(p.lo, p.hi, -1, -1);
      case Select(l, h) => CountStep(p.lo, p.hi, l, h);
    }

    /** The two tables hold the plan of the first k banks. */
    ghost predicate InTables(p: Plan, sFirst: array<int>, sLast: array<int>, k: nat, count: int)
      reads sFirst, sLast
    {
      && k <= sFirst.Length && k <= sLast.Length
      && p.Ranges? && |p.lo| == |p.hi| == k && count == Count(p.lo, p.hi, k)
      && forall j :: 0 <= j < k ==> sFirst[j] == p.lo[j] && sLast[j] == p.hi[j]
    }

    lemma CountStep(lo: seq<int>, hi: seq<int>, l: int, h: int)
      requires |lo| == |hi|
      ensures Count(lo + [l], hi + [h], |lo| + 1) == Count(lo, hi, |lo|) + if l >= 0 then h - l + 1 else 0
    {
      CountPrefix(lo, hi, [l], [h], |lo|);
    }

    lemma {:induction false} CountPrefix(lo: seq<int>, hi: seq<int>, lo': seq<int>, hi': seq<int>, k: nat)
      requires k <= |lo| == |hi|
      ensures Count(lo + lo', hi + hi', k) == Count(lo, hi, k)
    {
      if k > 0 {
        CountPrefix(lo, hi, lo', hi', k - 1);
      }
    }

    /** What one bank contributes. */
    method PlanBank(bank: nat, first: int, last: int, sFirst: array<int>, sLast: array<int>)
      returns (ok: bool, next: int, added: int)
      requires ValidBanks(banks) && bank < |banks| && first <= last
      requires sFirst != sLast && sFirst.Length == sLast.Length == |banks|
      requires sFirst[bank] == -1 && sLast[bank] == -1
      modifies sFirst, sLast
      ensures forall j :: 0 <= j < |banks| && j != bank ==> sFirst[j] == old(sFirst[j]) && sLast[j] == old(sLast[j])
      ensures match Choose(banks[bank], first, last)
        case Refuse => !ok
        case Skip => ok && next == first && added == 0 && sFirst[bank] == sLast[bank] == -1
        case Select(l, h) =>
          && ok && sFirst[bank] == l && sLast[bank] == h && 0 <= l <= h < |banks[bank].start|
          && next == SectorEnd(banks[bank], h) + 1 && added == h - l + 1
    {
      var info := banks[bank];
      ok, next, added := true, first, 0;
      if !info.known {
        return;
      }
      ChooseMeaning(info, first, last);
      LookFinds(info, |info.start|, first, last);
      FillBank(bank, first, last, sFirst, sLast);
      var bEnd: int := info.start[0] + info.size - 1;
      var sEnd := |info.start| - 1;
      if sFirst[bank] >= 0 {
        if sLast[bank] < 0 {
          if last > bEnd {
            sLast[bank] := sEnd;
          } else {
            ok := false;
            return;
          }
        }
        if sLast[bank] < sFirst[bank] {
          ok := false;
          return;
        }
        var sect := sLast[bank];
        next := if sect == sEnd then bEnd + 1 else info.start[sect + 1];
        added := sLast[bank] - sFirst[bank] + 1;
      } else if first >= info.start[0] && first < bEnd {
        ok := false;
      } else if sLast[bank] >= 0 {
        ok := false;
      }
    }

    function Blank(n: nat): seq<int> {
      seq(n, _ => -1)
    }

    /** When the whole range is planned the remaining banks stay untouched. */
    lemma {:induction false} Idle(banks: seq<Bank>, k: nat, first: int, last: int, n: nat)
      requires k <= n <= |banks| && PlanUpTo(banks, k, first, last).Ranges?
      requires k == n || PlanUpTo(banks, k, first, last).next > last
      ensures var p := PlanUpTo(banks, k, first, last);
        PlanUpTo(banks, n, first, last) == Ranges(p.lo + Blank(n - k), p.hi + Blank(n - k), p.next)
      decreases n
    {
      var p := PlanUpTo(banks, k, first, last);
      if n == k {
        assert p.lo + Blank(0) == p.lo && p.hi + Blank(0) == p.hi;
      } else {
        Idle(banks, k, first, last, n - 1);
        assert p.lo + Blank(n - k) == p.lo + Blank(n - 1 - k) + [-1];
        assert p.hi + Blank(n - k) == p.hi + Blank(n - 1 - k) + [-1];
      }
    }

    lemma {:induction false} CountIdle(lo: seq<int>, hi: seq<int>, n: nat, k: nat)
      requires |lo| == |hi| && k <= n
      ensures Count(lo + Blank(n), hi + Blank(n), |lo| + k) == Count(lo, hi, |lo|)
    {
      if k == 0 {
        CountPrefix(lo, hi, Blank(n), Blank(n), |lo|);
      } else {
        CountIdle(lo, hi, n, k - 1);
      }
    }

    /** The loop over the sectors of one bank. */
    method FillBank(bank: nat, first: int, last: int, sFirst: array<int>, sLast: array<int>)
      requires sFirst != sLast && sFirst.Length == sLast.Length == |banks| && bank < |banks|
      requires banks[bank].start != [] && sFirst[bank] == -1 && sLast[bank] == -1
      modifies sFirst, sLast
      ensures (sFirst[bank], sLast[bank]) == Look(banks[bank], |banks[bank].start|, first, last)
      ensures forall j :: 0 <= j < |banks| && j != bank ==> sFirst[j] == old(sFirst[j]) && sLast[j] == old(sLast[j])
    {
      var info := banks[bank];
      var bEnd: int := info.start[0] + info.size - 1;
      for sect := 0 to |info.start|
        invariant (sFirst[bank], sLast[bank]) == Look(info, sect, first, last)
        invariant forall j :: 0 <= j < |banks| && j != bank ==> sFirst[j] == old(sFirst[j]) && sLast[j] == old(sLast[j])
      {
        var end: int := if sect == |info.start| - 1 then bEnd else info.start[sect + 1] as int - 1;
        if first > end {
          continue;
        }
        if last < info.start[sect] {
          continue;
        }
        if first == info.start[sect] {
          sFirst[bank] := sect;
        }
        if last == end {
          sLast[bank] := sect;
        }
      }
    }

    lemma RefusalStays(banks: seq<Bank>, k: nat, first: int, last: int)
      requires k <= |banks| && PlanUpTo(banks, k, first, last) == Refused
      ensures Planned(banks, first, last) == Refused
      decreases |banks| - k
    {
      if k < |banks| {
        RefusalStays(banks, k + 1, first, last);
      }
    }

    /** flash_sect_roundb. */
    method SectRoundB(addr: int) returns (found: bool, rounded: int)
      requires forall k :: 0 <= k < |banks| ==> NoWrap(banks[k])
      ensures found == (Rounded(banks, |banks|, addr) >= 0)
      ensures rounded == if found then Rounded(banks, |banks|, addr) else addr
    {
      found, rounded := false, addr;
      var bank := 0;
      while bank < |banks| && !found
        invariant bank <= |banks|
        invariant found == (Rounded(banks, bank, addr) >= 0)
        invariant rounded == if found then Rounded(banks, bank, addr) else addr
      {
        found, rounded := RoundInBank(banks[bank], addr);
        bank := bank + 1;
      }
      RoundedStays(bank, addr);
    }

    /** The loop over the sectors of one bank. */
    method RoundInBank(info: Bank, addr: int) returns (found: bool, rounded: int)
      requires NoWrap(info)
      ensures var i := FindIn(info, |info.start|, addr);
        && found == (0 <= i < |info.start|) && (!found ==> i < 0)
        && rounded == if found then SectorEnd(info, i) else addr
      ensures found ==> rounded >= 0
    {
      found, rounded := false, addr;
      var i := 0;
      while i < |info.start| && !found
        invariant i <= |info.start| && found == (FindIn(info, i, addr) >= 0)
        invariant found ==> FindIn(info, i, addr) < |info.start| && rounded == SectorEnd(info, FindIn(info, i, addr))
        invariant found ==> FindIn(info, |info.start|, addr) == FindIn(info, i, addr) && rounded >= 0
        invariant !found ==> rounded == addr
      {
        var end: int := if i == |info.start| - 1 then info.start[0] + info.size - 1 else info.start[i + 1] as int - 1;
        if addr <= end && addr >= info.start[i] {
          found := true;
          if addr < end {
            rounded := end;
          }
          FoundStays(info, i + 1, addr);
        }
        i := i + 1;
      }
    }

    lemma FoundStays(b: Bank, n: nat, a: int)
      requires n <= |b.start| && FindIn(b, n, a) >= 0
      ensures FindIn(b, |b.start|, a) == FindIn(b, n, a)
      decreases |b.start| - n
    {
      if n < |b.start| {
        FoundStays(b, n + 1, a);
      }
    }

    lemma RoundedStays(k: nat, a: int)
      requires k <= |banks| && (k == |banks| || Rounded(banks, k, a) >= 0)
      ensures Rounded(banks, |banks|, a) == Rounded(banks, k, a)
      decreases |banks| - k
    {
      if k < |banks| {
        RoundedStays(k + 1, a);
      }
    }

    /** flash_sect_erase. `answers[bank]` is what flash_erase returns for a bank;
        the first nonzero answer stops the command. Nothing is erased unless the
        planner accepted the range and selected something. */
    method SectErase(first: int, last: int, answers: seq<int>) returns (rcode: int, calls: seq<Call>)
      requires ValidBanks(banks) && |answers| == |banks|
      ensures var p := Planned(banks, first, last);
        if WorthErasing(p) then Erased(p, answers, rcode, calls) else rcode == 1 && calls == []
      ensures rcode == 0 ==> ErasesExactly(banks, first, last, calls)
    {
      var sFirst := new int[|banks|];
      var sLast := new int[|banks|];
      var ok, planned := FillSectRanges(first, last, sFirst, sLast);
      if first <= last {
        PlanShape(banks, |banks|, first, last);
      } else {
        Idle(banks, 0, first, last, |banks|);
      }
      if !ok || planned == 0 {
        return 1, [];
      }
      rcode, calls := EraseRanges(sFirst, sLast, answers, Planned(banks, first, last));
      if rcode == 0 {
        EraseIsExact(banks, first, last, answers, calls);
      }
    }

    method EraseRanges(sFirst: array<int>, sLast: array<int>, answers: seq<int>, ghost p: Plan)
      returns (rcode: int, calls: seq<Call>)
      requires p.Ranges? && |p.lo| == |p.hi| == |answers| && sFirst[..] == p.lo && sLast[..] == p.hi
      ensures Erased(p, answers, rcode, calls)
    {
      rcode, calls := 0, [];
      var bank := 0;
      while bank < sFirst.Length && rcode == 0
        invariant bank <= sFirst.Length && calls == EraseCalls(p, bank)
        invariant rcode == 0 ==> NoFailure(p, answers, bank)
        invariant rcode != 0 ==> bank > 0 && FailedAt(p, answers, bank - 1, rcode, calls)
      {
        assert sFirst[bank] == p.lo[bank] && sLast[bank] == p.hi[bank];
        if sFirst[bank] >= 0 {
          rcode := answers[bank];
          calls := calls + [Call(bank, sFirst[bank], sLast[bank])];
        }
        bank := bank + 1;
      }
    }
  }
}
