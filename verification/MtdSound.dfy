/**
 What the parser of the partition table makes of texts that the printer does not write:
 every table it accepts is valid, `-` takes all that remains, numbers may be hexadecimal
 or octal, and what it refuses.
 */
module MtdSound {
  import opened Machine
  import opened Wrappers
  import opened MtdValidate
  import opened MtdText
  import MtdTies

  // ------------------------------------------------------- whatever is accepted

  /** A partition whose range is inside the flash of the device and on its erase blocks. */
  ghost predicate Fits(id: Id, p: Part)
    requires KnownChip(id)
  {
    Accepts(id.flash, id.chip, p.offset, p.size)
  }

  lemma {:induction false} ParsedFit(id: Id, s: string, running: u32)
    requires KnownChip(id)
    ensures match ParseParts(id, s, running)
      case Bad => true
      case Good(parts, t) => forall p :: p in parts ==> Fits(id, p)
    decreases |s|
  {
    if s != "" && s[0] != ';' {
      assert ParseParts(id, s, running) == ParseNext(id, s, running);
      match ParsePart(s)
      case Bad =>
      case Good(raw, t) =>
        ParsedFit(id, t, End(Settle(id, raw, running)));
    }
  }

  lemma {:induction false} SortAddKeeps(parts: seq<Part>, p: Part)
    ensures SortAdd(parts, p).Some? ==> multiset(SortAdd(parts, p).value) == multiset(parts) + multiset{p}
  {
    if parts != [] && SortAdd(parts, p).Some? {
      SortAddKeeps(parts[1..], p);
      assert parts == [parts[0]] + parts[1..];
    }
  }

  /** Sorting loses no partition and makes none. */
  lemma {:induction false} SortAllKeeps(parts: seq<Part>)
    ensures SortAll(parts).Some? ==> multiset(SortAll(parts).value) == multiset(parts)
  {
    if parts != [] && SortAll(parts).Some? {
      var last := |parts| - 1;
      SortAllKeeps(parts[..last]);
      SortAddKeeps(SortAll(parts[..last]).value, parts[last]);
      assert parts == parts[..last] + [parts[last]];
    }
  }

  /** A device as the parser makes it. */
  ghost predicate Sound(ids: seq<Id>, d: Device) {
    && d.id in ids && KnownChip(d.id) && d.parts != []
    && (forall p :: p in d.parts ==> Fits(d.id, p))
    && MtdTies.Ascending(d.parts)
  }

  ghost predicate Distinct(devices: seq<Device>) {
    forall j, k :: 0 <= j < k < |devices| ==>
      !(devices[j].id.kind == devices[k].id.kind && devices[j].id.num == devices[k].id.num)
  }

  lemma {:induction false} FoundIn(ids: seq<Id>, mtdId: string)
    ensures FindId(ids, mtdId).Some? ==> FindId(ids, mtdId).value in ids && FindId(ids, mtdId).value.mtdId == mtdId
  {
    if ids != [] && ids[0].mtdId != mtdId {
      FoundIn(ids[1..], mtdId);
    }
  }

  lemma ParsedDevice(ids: seq<Id>, devices: seq<Device>, s: string)
    requires KnownChips(ids)
    ensures ParseDevice(ids, devices, s).Good? ==> Sound(ids, ParseDevice(ids, devices, s).value)
  {
    if ParseDevice(ids, devices, s).Good? {
      var colon := IndexOf(s, ':');
      DeviceHead(ids, devices, s);
      FoundIn(ids, s[..colon]);
      var id := FindId(ids, s[..colon]).value;
      ParsedFit(id, s[colon + 1..], StartOffset(devices, id));
      var parts := ParseParts(id, s[colon + 1..], StartOffset(devices, id)).value;
      MtdTies.SortAllAscends(parts);
      SortAllKeeps(parts);
      SortedFrom(parts, SortAll(parts).value);
    }
  }

  lemma SortedFrom(parts: seq<Part>, sorted: seq<Part>)
    requires multiset(sorted) == multiset(parts)
    ensures |sorted| == |parts| && forall p :: p in sorted ==> p in parts
  {
    assert |multiset(sorted)| == |multiset(parts)|;
    forall p | p in sorted
      ensures p in parts
    {
      assert p in multiset(sorted);
    }
  }

  lemma {:induction false} NoneFound(devices: seq<Device>, id: Id)
    ensures FindDevice(devices, id) == None <==>
      forall k :: 0 <= k < |devices| ==> !(devices[k].id.kind == id.kind && devices[k].id.num == id.num)
  {
    if devices != [] {
      NoneFound(devices[1..], id);
      assert forall k :: 1 <= k < |devices| ==> devices[k] == devices[1..][k - 1];
    }
  }

  ghost predicate SoundTable(ids: seq<Id>, devices: seq<Device>) {
    (forall k :: 0 <= k < |devices| ==> Sound(ids, devices[k])) && Distinct(devices)
  }

  lemma {:induction false} ParsedDevices(ids: seq<Id>, devices: seq<Device>, s: string)
    requires KnownChips(ids) && SoundTable(ids, devices)
    ensures var r := ParseDevices(ids, devices, s);
      r.Some? ==> SoundTable(ids, r.value) && devices <= r.value
    decreases |s|
  {
    if s != "" {
      assert ParseDevices(ids, devices, s) == ParseNextDevice(ids, devices, s);
      match ParseDevice(ids, devices, s)
      case Bad =>
      case Good(d, t) =>
        if FindDevice(devices, d.id) == None {
          ParsedDevice(ids, devices, s);
          NoneFound(devices, d.id);
          ParsedDevices(ids, devices + [d], t);
        }
    }
  }

  /** Whatever text is accepted, the table is valid: known devices, each once and with at least
      one partition, every partition a run of erase blocks inside its device, in ascending order,
      and at most one at offset 0. */
  lemma ParsedIsSound(ids: seq<Id>, s: string)
    requires KnownChips(ids)
    ensures ParseMtdparts(ids, s).Some? ==>
      "mtdparts=" < s && ParseMtdparts(ids, s).value != [] && SoundTable(ids, ParseMtdparts(ids, s).value)
  {
    if PREFIX <= s && |s| > |PREFIX| {
      ParsedDevices(ids, [], s[|PREFIX|..]);
      ParsedSome(ids, s[|PREFIX|..]);
    }
  }

  /** From a text that is not empty comes at least one device. */
  lemma ParsedSome(ids: seq<Id>, s: string)
    requires KnownChips(ids) && s != ""
    ensures ParseDevices(ids, [], s).Some? ==> ParseDevices(ids, [], s).value != []
  {
    assert ParseDevices(ids, [], s) == ParseNextDevice(ids, [], s);
    match ParseDevice(ids, [], s)
    case Bad =>
    case Good(d, t) =>
      ParsedDevice(ids, [], s);
      ParsedDevices(ids, [d], t);
      assert [] + [d] == [d];
  }

  // ------------------------------------------------------- all that remains

  /** The text of a partition with `-` in place of its size. */
  function DashText(previous: u32, p: Part, t: string): string {
    "-" + OffsetText(previous, p, NameText(p, RoText(p, t)))
  }

  predicate Nameable(p: Part) {
    && p.offset != OFFSET_NOT_SPECIFIED
    && (p.name.Some? ==> p.name.value != "" && ')' !in p.name.value)
  }

  /** What part_parse makes of what stands behind the size, which does not depend on it. */
  lemma RestOfPart(previous: u32, p: Part, t: string)
    requires Nameable(p) && Ends(t)
    ensures var s1 := OffsetText(previous, p, NameText(p, RoText(p, t)));
      var s2 := NameText(p, RoText(p, t));
      && ParseOffset(s1) == (if p.offset != previous then p.offset else OFFSET_NOT_SPECIFIED, s2)
      && ParseName(s2) == Good(p.name, RoText(p, t)) && ParseRo(RoText(p, t)) == (p.ro, t)
  {
    var q := p.(size := MIN_PART_SIZE);
    assert RoText(q, t) == RoText(p, t);
    assert NameText(q, RoText(p, t)) == NameText(p, RoText(p, t));
    Heads(previous, q, t);
    ParseRoText(q, t);
    ParseNameText(q, RoText(p, t));
    ParseOffsetText(previous, q, NameText(p, RoText(p, t)));
    assert OffsetText(previous, q, NameText(p, RoText(p, t))) == OffsetText(previous, p, NameText(p, RoText(p, t)));
  }

  lemma DashPart(previous: u32, p: Part, t: string)
    requires Nameable(p) && Ends(t)
    ensures ParsePart(DashText(previous, p, t)) ==
      Good(p.(size := SIZE_REMAINING, offset := if p.offset != previous then p.offset else OFFSET_NOT_SPECIFIED), t)
  {
    RestOfPart(previous, p, t);
    DashSize(OffsetText(previous, p, NameText(p, RoText(p, t))));
  }

  lemma DashSize(t: string)
    ensures ParseSize("-" + t) == Good(SIZE_REMAINING, t)
  {
    assert ("-" + t)[1..] == t;
  }

  lemma LastPart(id: Id, s: string, running: u32, raw: Part, t: string)
    requires KnownChip(id) && s != "" && s[0] != ';' && ParsePart(s) == Good(raw, t) && Ends(t)
    ensures ParseParts(id, s, running) ==
      var p := Settle(id, raw, running);
      if Accepts(id.flash, id.chip, p.offset, p.size) then Good([p], t) else Bad
  {
    var p := Settle(id, raw, running);
    ParsePartsEnd(id, t, End(p));
    assert [p] + [] == [p];
    assert ParseParts(id, s, running) == ParseNext(id, s, running);
  }

  /** A partition with `-` for its size gets exactly the space from its offset to the end of the
      flash, or the whole text is refused. */
  lemma DashTakesRest(id: Id, previous: u32, p: Part, t: string)
    requires KnownChip(id) && Nameable(p) && Ends(t)
    ensures ParseParts(id, DashText(previous, p, t), previous) ==
      if p.offset <= id.flash && Accepts(id.flash, id.chip, p.offset, id.flash - p.offset)
      then Good([p.(size := id.flash - p.offset)], t) else Bad
  {
    var raw := p.(size := SIZE_REMAINING, offset := if p.offset != previous then p.offset else OFFSET_NOT_SPECIFIED);
    DashPart(previous, p, t);
    LastPart(id, DashText(previous, p, t), previous, raw, t);
    EffectiveExact(id.flash, p.offset, SIZE_REMAINING);
  }

  /** The partitions from number k on, the last one with `-`. */
  function PartsDashText(parts: seq<Part>, k: nat, t: string): string
    requires k < |parts|
    decreases |parts| - k
  {
    if k + 1 == |parts| then DashText(Previous(parts, k), parts[k], t)
    else PartText(Previous(parts, k), parts[k], "," + PartsDashText(parts, k + 1, t))
  }

  /** The text from number k on reads back as those partitions. */
  ghost predicate DashReads(id: Id, parts: seq<Part>, k: nat, t: string)
    requires KnownChip(id)
  {
    k < |parts| && ParseParts(id, PartsDashText(parts, k, t), Previous(parts, k)) == Good(parts[k..], t)
  }

  lemma DashReadsLast(id: Id, parts: seq<Part>, k: nat, t: string)
    requires KnownChip(id) && k + 1 == |parts| && Storable(id, parts[k]) && Ends(t)
    requires parts[k].offset as int + parts[k].size == id.flash
    ensures DashReads(id, parts, k, t)
  {
    DashTakesRest(id, Previous(parts, k), parts[k], t);
    assert parts[k..] == [parts[k]];
  }

  lemma DashReadsMore(id: Id, parts: seq<Part>, k: nat, t: string)
    requires KnownChip(id) && k + 1 < |parts| && Storable(id, parts[k]) && DashReads(id, parts, k + 1, t)
    ensures DashReads(id, parts, k, t)
  {
    PartsStep(id, Previous(parts, k), parts[k], true, PartsDashText(parts, k + 1, t));
    assert parts[k..] == [parts[k]] + parts[k + 1..];
  }

  /** When the last partition reaches the end of the flash, `-` says the same as its size. */
  lemma DashReadsBack(id: Id, parts: seq<Part>, k: nat, t: string)
    requires KnownChip(id) && AllStorable(id, parts) && k < |parts| && Ends(t)
    requires parts[|parts| - 1].offset as int + parts[|parts| - 1].size == id.flash
    ensures ParseParts(id, PartsDashText(parts, k, t), Previous(parts, k)) == Good(parts[k..], t)
  {
    var last := |parts| - 1;
    DashReadsLast(id, parts, last, t);
    forall j: nat | j < last && DashReads(id, parts, j + 1, t)
      ensures DashReads(id, parts, j, t)
    {
      DashReadsMore(id, parts, j, t);
    }
    Downwards((j: nat) => DashReads(id, parts, j, t), last, k);
    assert DashReads(id, parts, k, t);
  }

  // ------------------------------------------------------- numbers in other bases

  /** A hexadecimal digit in either case. */
  function DigitChar(d: nat, upper: bool): char
    requires d < 16
  {
    if d < 10 then '0' + d as char else (if upper then 'A' else 'a') + (d - 10) as char
  }

  function HexDigits(n: nat, upper: bool): string {
    if n < 16 then [DigitChar(n, upper)] else HexDigits(n / 16, upper) + [DigitChar(n % 16, upper)]
  }

  function OctDigits(n: nat): string {
    if n < 8 then [DigitChar(n, false)] else OctDigits(n / 8) + [DigitChar(n % 8, false)]
  }

  lemma DigitReads(d: nat, upper: bool, t: string)
    requires d < 16
    ensures DigitOf(DigitChar(d, upper)) == d && ([DigitChar(d, upper)] + t)[1..] == t
  {
  }

  lemma HexStep(d: nat, upper: bool, t: string, acc: nat)
    requires d < 16 && acc * 16 + d < WORD
    ensures Number([DigitChar(d, upper)] + t, 16, acc) == Number(t, 16, acc * 16 + d)
  {
    DigitReads(d, upper, t);
  }

  lemma OctStep(d: nat, t: string, acc: nat)
    requires d < 8 && acc * 8 + d < WORD
    ensures Number([DigitChar(d, false)] + t, 8, acc) == Number(t, 8, acc * 8 + d)
  {
    DigitReads(d, false, t);
  }

  lemma {:induction false} HexNumber(n: nat, upper: bool, t: string)
    requires n < WORD
    ensures Number(HexDigits(n, upper) + t, 16, 0) == Number(t, 16, n)
  {
    if n < 16 {
      HexStep(n, upper, t, 0);
    } else {
      var last := [DigitChar(n % 16, upper)];
      HexNumber(n / 16, upper, last + t);
      HexStep(n % 16, upper, t, n / 16);
      assert HexDigits(n, upper) + t == HexDigits(n / 16, upper) + (last + t);
    }
  }

  lemma {:induction false} OctNumber(n: nat, t: string)
    requires n < WORD
    ensures Number(OctDigits(n) + t, 8, 0) == Number(t, 8, n)
  {
    if n < 8 {
      OctStep(n, t, 0);
    } else {
      var last := [DigitChar(n % 8, false)];
      OctNumber(n / 8, last + t);
      OctStep(n % 8, t, n / 8);
      assert OctDigits(n) + t == OctDigits(n / 8) + (last + t);
    }
  }

  lemma {:induction false} FirstDigits(n: nat, upper: bool)
    ensures HexDigits(n, upper) != "" && DigitOf(HexDigits(n, upper)[0]) < 16
    ensures OctDigits(n) != "" && DigitOf(OctDigits(n)[0]) < 8
  {
    if n >= 16 {
      FirstDigits(n / 16, upper);
    }
    if n >= 8 {
      FirstDigits(n / 8, upper);
    }
  }

  /** Behind `0x` a number is hexadecimal, in digits of either case. */
  lemma HexReads(n: nat, upper: bool, t: string)
    requires n < WORD && (t == "" || DigitOf(t[0]) >= 16)
    ensures Strtoul("0x" + HexDigits(n, upper) + t) == (n, t)
  {
    var digits := HexDigits(n, upper);
    HexNumber(n, upper, t);
    FirstDigits(n, upper);
    var s := "0x" + digits + t;
    assert s[2..] == digits + t && s[2] == digits[0];
  }

  /** Behind another `0` it is octal. */
  lemma OctalReads(n: nat, t: string)
    requires n < WORD && (t == "" || DigitOf(t[0]) >= 8)
    ensures Strtoul("0" + OctDigits(n) + t) == (n, t)
  {
    var digits := OctDigits(n);
    OctNumber(n, t);
    FirstDigits(n, false);
    var s := "0" + digits + t;
    assert s[1..] == digits + t && s[1] == digits[0];
  }

  /** A zero in front of anything else is just that, and an `x` without hexadecimal digits is left. */
  lemma ZeroReads(t: string)
    requires t == "" || DigitOf(t[0]) >= 8
    requires |t| >= 2 && t[0] == 'x' ==> DigitOf(t[1]) >= 16
    ensures Strtoul("0" + t) == (0, t)
  {
    assert ("0" + t)[1..] == t;
  }

  /** A capital suffix counts like the small one. */
  lemma CapitalSuffix(n: nat, small: bool, k: nat, t: string)
    requires 1 <= k <= 3 && 0 < n && n * [1, 0x400, 0x10_0000, 0x4000_0000][k] < WORD
    ensures MemsizeParse(Digits(n) + [(if small then "-kmg" else "-KMG")[k]] + t) ==
      (n * [1, 0x400, 0x10_0000, 0x4000_0000][k], t)
  {
    var c := (if small then "-kmg" else "-KMG")[k];
    assert Digits(n) + [c] + t == Digits(n) + ([c] + t);
    assert ([c] + t)[1..] == t;
    StrtoulReadsDigits(n, [c] + t);
    ScaleExact(n);
    assert Suffix(c) == k;
  }

  // ------------------------------------------------------- what is refused

  /** A size is refused exactly when it is below 4096, however it is written. */
  lemma SmallRefused(s: string)
    requires CharAt(s, 0) != '-'
    ensures ParseSize(s) == Bad <==> MemsizeParse(s).0 < 4096
    ensures MemsizeParse(s).0 < 4096 ==> ParsePart(s) == Bad
  {
  }

  /** What part_parse makes of a size and what stands behind it. */
  lemma AfterSize(p: Part, t: string)
    requires Printable(p) && Stops(t)
    ensures ParsePart(MemsizeFormat(p.size) + t) ==
      var (offset, s2) := ParseOffset(t);
      match ParseName(s2)
      case Bad => Bad
      case Good(name, s3) => FinishPart(Part(p.size, offset, name, ParseRo(s3).0), ParseRo(s3).1)
  {
    ParseSizeText(p, t);
  }

  /** So is a name that is empty or not closed. */
  lemma NameRefused(p: Part, t: string)
    requires Printable(p)
    ensures ParsePart(MemsizeFormat(p.size) + ("()" + t)) == Bad
    ensures ')' !in t ==> ParsePart(MemsizeFormat(p.size) + ("(" + t)) == Bad
  {
    AfterSize(p, "()" + t);
    assert ("()" + t)[1..] == ")" + t;
    AfterSize(p, "(" + t);
    assert ("(" + t)[1..] == t;
    if ')' !in t {
      NotIndexed(t, ')');
    }
  }

  lemma {:induction false} NotIndexed(s: string, c: char)
    requires c !in s
    ensures IndexOf(s, c) == |s|
  {
    if s != "" {
      NotIndexed(s[1..], c);
    }
  }

  /** And anything behind a partition but a comma, a semicolon or the end; behind `-` even the
      comma. */
  lemma EndRefused(p: Part, t: string)
    requires Printable(p) && p.name.Some? && t != "" && t[0] != ';' && !("ro" <= t)
    ensures t[0] != ',' ==> ParsePart(MemsizeFormat(p.size) + NameText(p, t)) == Bad
    ensures ParsePart("-" + NameText(p, t)) == Bad
  {
    AfterSize(p, NameText(p, t));
    if t[0] != '(' {
      ParseNameText(p, t);
    } else {
      IndexOfFirst(p.name.value, ')', t);
      assert NameText(p, t)[1..] == p.name.value + (")" + t);
    }
    assert ("-" + NameText(p, t))[1..] == NameText(p, t);
    assert |t| >= 2 && t[..2] == "ro" ==> "ro" <= t;
  }
}
