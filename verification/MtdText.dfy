/**
 The text form of the partition table, `id:size@offset(name)ro,...;...`: what the
 printer writes and what the parser makes of a text. Printing and parsing again
 gives the same table.
 */
module MtdText {
  import opened Arithmetic
  import opened Machine
  import opened Wrappers
  import opened MtdValidate

  const MIN_PART_SIZE := 4096
  const OFFSET_NOT_SPECIFIED: u32 := 0xFFFF_FFFF

  /** An entry of the id list: type and number, size, linux name, geometry. */
  datatype Id = Id(kind: int, num: int, flash: u32, mtdId: string, chip: Option<Chip>)

  /** A partition; without a user name one is generated. */
  datatype Part = Part(size: u32, offset: u32, name: Option<string>, ro: bool)

  datatype Device = Device(id: Id, parts: seq<Part>)

  function End(p: Part): u32 {
    (p.offset as int + p.size) % WORD
  }

  function IndexOf(s: string, c: char): (i: nat)
    ensures i <= |s|
  {
    if s == "" || s[0] == c then 0 else 1 + IndexOf(s[1..], c)
  }

  // --------------------------------------------------------------- numbers

  /** The value of a hexadecimal digit, 16 for any other character. */
  function DigitOf(c: char): nat {
    if '0' <= c <= '9' then c as int - '0' as int
    else if 'a' <= c <= 'f' then c as int - 'a' as int + 10
    else if 'A' <= c <= 'F' then c as int - 'A' as int + 10
    else 16
  }

  /** The digit loop of simple_strtoul, in 32 bits. */
  function Number(s: string, base: nat, acc: u32): (r: (u32, string))
    requires base <= 16
    ensures |r.1| <= |s| && (r.1 == s ==> r.0 == acc)
  {
    if s == "" || DigitOf(s[0]) >= base then (acc, s)
    else Number(s[1..], base, (acc * base + DigitOf(s[0])) % WORD)
  }

  /** simple_strtoul with base 0. */
  function Strtoul(s: string): (r: (u32, string))
    ensures |r.1| <= |s| && (r.1 == s ==> r.0 == 0)
  {
    if CharAt(s, 0) == '0' then
      if CharAt(s, 1) == 'x' && DigitOf(CharAt(s, 2)) < 16 then Number(s[2..], 16, 0) else Number(s[1..], 8, 0)
    else Number(s, 10, 0)
  }

  /** How often a size suffix multiplies by 1024. */
  function Suffix(c: char): nat {
    if c == 'g' || c == 'G' then 3 else if c == 'm' || c == 'M' then 2 else if c == 'k' || c == 'K' then 1 else 0
  }

  function Kilo(x: u32): u32 {
    (x * 1024) % WORD
  }

  function Scale(x: u32, n: nat): u32 {
    if n == 0 then x else if n == 1 then Kilo(x) else if n == 2 then Kilo(Kilo(x)) else Kilo(Kilo(Kilo(x)))
  }

  function MemsizeParse(s: string): (r: (u32, string))
    ensures |r.1| <= |s| && (r.1 == s ==> r.0 == 0)
  {
    var (v, t) := Strtoul(s);
    var n := Suffix(CharAt(t, 0));
    (Scale(v, n), if n > 0 && t != "" then t[1..] else t)
  }

  /** Decimal digits. */
  function Digits(n: nat): string {
    if n < 10 then [n as char + '0'] else Digits(n / 10) + [(n % 10) as char + '0']
  }

  function MemsizeFormat(size: u32): string {
    if size % 0x4000_0000 == 0 then Digits(size / 0x4000_0000) + "g"
    else if size % 0x10_0000 == 0 then Digits(size / 0x10_0000) + "m"
    else if size % 0x400 == 0 then Digits(size / 0x400) + "k"
    else Digits(size)
  }

  /** What may stand behind a number in a partition table. */
  predicate Stops(t: string) {
    t == "" || t[0] in "@(r,;"
  }

  lemma NumberStep(d: nat, t: string, acc: nat)
    requires d < 10 && acc * 10 + d < WORD
    ensures Number([d as char + '0'] + t, 10, acc) == Number(t, 10, acc * 10 + d)
  {
    var c := d as char + '0';
    assert DigitOf(c) == d;
    assert ([c] + t)[1..] == t;
  }

  lemma {:induction false} NumberReadsDigits(n: nat, t: string)
    requires n < WORD
    ensures Number(Digits(n) + t, 10, 0) == Number(t, 10, n)
  {
    var last := [(n % 10) as char + '0'];
    if n < 10 {
      NumberStep(n, t, 0);
    } else {
      NumberReadsDigits(n / 10, last + t);
      NumberStep(n % 10, t, n / 10);
      assert Digits(n) + t == Digits(n / 10) + (last + t);
    }
  }

  lemma {:induction false} DigitsAreDigits(n: nat)
    ensures |Digits(n)| > 0 && '0' <= Digits(n)[0] <= '9'
    ensures n > 0 ==> Digits(n)[0] != '0'
  {
    if n >= 10 {
      DigitsAreDigits(n / 10);
    }
  }

  lemma StrtoulReadsDigits(n: nat, t: string)
    requires 0 < n < WORD && (t == "" || DigitOf(t[0]) >= 10)
    ensures Strtoul(Digits(n) + t) == (n, t)
  {
    DigitsAreDigits(n);
    NumberReadsDigits(n, t);
    assert (Digits(n) + t)[0] == Digits(n)[0];
  }

  lemma KiloExact(x: nat)
    requires x * 0x400 < WORD
    ensures Kilo(x) == x * 0x400
  {
  }

  lemma ScaleExact(x: nat)
    ensures x * 0x400 < WORD ==> Scale(x, 1) == x * 0x400
    ensures x * 0x10_0000 < WORD ==> Scale(x, 2) == x * 0x10_0000
    ensures x * 0x4000_0000 < WORD ==> Scale(x, 3) == x * 0x4000_0000
  {
    if x * 0x400 < WORD { KiloExact(x); }
    if x * 0x10_0000 < WORD { KiloExact(x * 0x400); }
    if x * 0x4000_0000 < WORD { KiloExact(x * 0x10_0000); }
  }

  /** What one unit of a suffix is worth. */
  function Unit(c: char): nat {
    if c == 'g' then 0x4000_0000 else if c == 'm' then 0x10_0000 else 0x400
  }

  lemma ParseScaled(n: nat, c: char, t: string)
    requires 0 < n && n * Unit(c) < WORD && c in "gmk"
    ensures MemsizeParse(Digits(n) + [c] + t) == (n * Unit(c), t)
  {
    assert Digits(n) + [c] + t == Digits(n) + ([c] + t);
    assert ([c] + t)[1..] == t;
    StrtoulReadsDigits(n, [c] + t);
    ScaleExact(n);
    assert Suffix(c) == if c == 'g' then 3 else if c == 'm' then 2 else 1;
  }

  /** `0g`: the leading 0 announces an octal number, which has no digits. */
  lemma ParseZero(t: string)
    ensures MemsizeParse(Digits(0) + "g" + t) == (0, t)
  {
    var s := Digits(0) + "g" + t;
    assert s[0] == '0' && s[1] == 'g' && s[1..] == "g" + t;
    assert ("g" + t)[1..] == t;
    assert Number("g" + t, 8, 0) == (0, "g" + t);
  }

  /** memsize_parse undoes memsize_format, for every 32-bit size. */
  lemma SizeRoundTrip(size: u32, t: string)
    requires Stops(t)
    ensures MemsizeParse(MemsizeFormat(size) + t) == (size, t)
  {
    if size == 0 {
      ParseZero(t);
      assert MemsizeFormat(0) == Digits(0) + "g";
    } else if size % 0x4000_0000 != 0 && size % 0x10_0000 != 0 && size % 0x400 != 0 {
      StrtoulReadsDigits(size, t);
    } else {
      var c := FormatUnit(size);
      ScaledRoundTrip(size, c, t);
    }
  }

  lemma ScaledRoundTrip(size: u32, c: char, t: string)
    requires size > 0 && c in "gmk" && size % Unit(c) == 0
    ensures MemsizeParse((Digits(size / Unit(c)) + [c]) + t) == (size, t)
  {
    var n, unit: nat := size / Unit(c), Unit(c);
    assert n * unit == size;
    ParseScaled(n, c, t);
  }

  /** The largest unit that divides the size. */
  lemma FormatUnit(size: u32) returns (c: char)
    requires size > 0 && (size % 0x4000_0000 == 0 || size % 0x10_0000 == 0 || size % 0x400 == 0)
    ensures c in "gmk" && size % Unit(c) == 0 && size / Unit(c) > 0
    ensures MemsizeFormat(size) == Digits(size / Unit(c)) + [c]
  {
    c := if size % 0x4000_0000 == 0 then 'g' else if size % 0x10_0000 == 0 then 'm' else 'k';
  }

  // --------------------------------------------------------------- printer

  /** The text of a partition in front of t; `previous` is the end of the one
      before it, or 0. The offset is left out when it equals that. */
  function PartText(previous: u32, p: Part, t: string): string {
    MemsizeFormat(p.size) + OffsetText(previous, p, NameText(p, RoText(p, t)))
  }

  function OffsetText(previous: u32, p: Part, t: string): string {
    if p.offset != previous then "@" + (MemsizeFormat(p.offset) + t) else t
  }

  function NameText(p: Part, t: string): string {
    if p.name.Some? then "(" + (p.name.value + (")" + t)) else t
  }

  function RoText(p: Part, t: string): string {
    if p.ro then "ro" + t else t
  }

  /** Where the partition in front of number k ends. */
  function Previous(parts: seq<Part>, k: nat): u32
    requires k <= |parts|
  {
    if k == 0 then 0 else End(parts[k - 1])
  }

  /** The partitions from number k on, in front of t. */
  function PartsText(parts: seq<Part>, k: nat, t: string): string
    requires k <= |parts|
    decreases |parts| - k
  {
    if k == |parts| then t
    else PartText(Previous(parts, k), parts[k], if k + 1 < |parts| then "," + PartsText(parts, k + 1, t) else t)
  }

  /** What follows device k. */
  function Behind(devices: seq<Device>, k: nat): string
    requires k < |devices|
    decreases |devices| - k, 0
  {
    if k + 1 < |devices| then ";" + DevicesText(devices, k + 1) else ""
  }

  /** The devices from number k on; from 0 on everything behind `mtdparts=`. */
  function DevicesText(devices: seq<Device>, k: nat): string
    requires k <= |devices|
    decreases |devices| - k, 1
  {
    if k == |devices| then ""
    else devices[k].id.mtdId + (":" + PartsText(devices[k].parts, 0, Behind(devices, k)))
  }

  // ---------------------------------------------------------------- parser

  datatype Parsed<+T> = Bad | Good(value: T, rest: string)

  function ParseSize(s: string): (r: Parsed<u32>)
    ensures r.Good? ==> |r.rest| < |s|
  {
    if CharAt(s, 0) == '-' && s != "" then Good(SIZE_REMAINING, s[1..])
    else
      var (size, t) := MemsizeParse(s);
      if size < MIN_PART_SIZE then Bad else Good(size, t)
  }

  function ParseOffset(s: string): (r: (u32, string))
    ensures |r.1| <= |s|
  {
    if s != "" && s[0] == '@' then MemsizeParse(s[1..]) else (OFFSET_NOT_SPECIFIED, s)
  }

  function ParseName(s: string): (r: Parsed<Option<string>>)
    ensures r.Good? ==> |r.rest| <= |s|
  {
    if s != "" && s[0] == '(' then
      var i := IndexOf(s[1..], ')');
      if i == |s| - 1 || i == 0 then Bad else Good(Some(s[1..][..i]), s[1..][i + 1..])
    else Good(None, s)
  }

  function ParseRo(s: string): (r: (bool, string))
    ensures |r.1| <= |s|
  {
    if |s| >= 2 && s[..2] == "ro" then (true, s[2..]) else (false, s)
  }

  /** part_parse; the offset may be left open. The rest starts behind a comma, or
      at the semicolon or the end. */
  function ParsePart(s: string): (r: Parsed<Part>)
    ensures r.Good? ==> |r.rest| < |s|
  {
    match ParseSize(s)
    case Bad => Bad
    case Good(size, s1) =>
      var (offset, s2) := ParseOffset(s1);
      match ParseName(s2)
      case Bad => Bad
      case Good(name, s3) =>
        FinishPart(Part(size, offset, name, ParseRo(s3).0), ParseRo(s3).1)
  }

  /** The separator: nothing may follow a partition that takes all that remains. */
  function FinishPart(part: Part, s: string): (r: Parsed<Part>)
    ensures r.Good? ==> |r.rest| <= |s|
  {
    if s == "" || s[0] == ';' then Good(part, s)
    else if s[0] == ',' && part.size != SIZE_REMAINING then Good(part, s[1..])
    else Bad
  }

  predicate KnownChip(id: Id) {
    id.chip.Some? ==> id.chip.value.erasesize > 0
  }

  /** The offset and the size that device_parse gives a partition. */
  function Settle(id: Id, raw: Part, running: u32): Part {
    var offset := if raw.offset == OFFSET_NOT_SPECIFIED then running else raw.offset;
    raw.(offset := offset, size := EffectiveSize(id.flash, offset, raw.size))
  }

  /** The loop of device_parse; `running` is where the next partition starts. */
  function ParseParts(id: Id, s: string, running: u32): (r: Parsed<seq<Part>>)
    requires KnownChip(id)
    ensures r.Good? ==> |r.rest| <= |s| && (r.rest == "" || r.rest[0] == ';')
    decreases |s|, 2
  {
    if s == "" then Good([], s) else ParseMore(id, s, running)
  }

  function ParseMore(id: Id, s: string, running: u32): (r: Parsed<seq<Part>>)
    requires KnownChip(id) && s != ""
    ensures r.Good? ==> |r.rest| <= |s| && (r.rest == "" || r.rest[0] == ';')
    decreases |s|, 1
  {
    if s[0] == ';' then Good([], s) else ParseNext(id, s, running)
  }

  function ParseNext(id: Id, s: string, running: u32): (r: Parsed<seq<Part>>)
    requires KnownChip(id)
    ensures r.Good? ==> |r.rest| <= |s| && (r.rest == "" || r.rest[0] == ';')
    decreases |s|, 0
  {
    match ParsePart(s)
    case Bad => Bad
    case Good(raw, t) =>
      var p := Settle(id, raw, running);
      if Accepts(id.flash, id.chip, p.offset, p.size) then Prepend(p, ParseParts(id, t, End(p))) else Bad
  }

  function Prepend(p: Part, r: Parsed<seq<Part>>): (r': Parsed<seq<Part>>)
    ensures r'.Good? <==> r.Good?
    ensures r.Good? ==> r'.rest == r.rest
  {
    match r
    case Bad => Bad
    case Good(ps, rest) => Good([p] + ps, rest)
  }

  /** part_sort_add: None when there would be two partitions at offset 0. */
  function SortAdd(parts: seq<Part>, p: Part): Option<seq<Part>> {
    if parts == [] then Some([p])
    else if p.offset == parts[0].offset == 0 then None
    else if p.offset <= parts[0].offset then Some([p] + parts)
    else match SortAdd(parts[1..], p)
      case None => None
      case Some(rest) => Some([parts[0]] + rest)
  }

  function SortAll(parts: seq<Part>): Option<seq<Part>> {
    if parts == [] then Some([])
    else match SortAll(parts[..|parts| - 1])
      case None => None
      case Some(sorted) => SortAdd(sorted, parts[|parts| - 1])
  }

  function FindId(ids: seq<Id>, mtdId: string): Option<Id> {
    if ids == [] then None else if ids[0].mtdId == mtdId then Some(ids[0]) else FindId(ids[1..], mtdId)
  }

  function FindDevice(devices: seq<Device>, id: Id): Option<Device> {
    if devices == [] then None
    else if devices[0].id.kind == id.kind && devices[0].id.num == id.num then Some(devices[0])
    else FindDevice(devices[1..], id)
  }

  /** Where device_parse starts on a device that already has partitions. */
  function StartOffset(devices: seq<Device>, id: Id): u32 {
    match FindDevice(devices, id)
    case Some(d) => if d.parts == [] then 0 else End(d.parts[|d.parts| - 1])
    case None => 0
  }

  ghost predicate KnownChips(ids: seq<Id>) {
    forall k :: 0 <= k < |ids| ==> KnownChip(ids[k])
  }

  lemma {:induction false} FoundChip(ids: seq<Id>, mtdId: string)
    requires KnownChips(ids)
    ensures FindId(ids, mtdId).Some? ==> KnownChip(FindId(ids, mtdId).value)
  {
    if ids != [] {
      FoundChip(ids[1..], mtdId);
    }
  }

  /** device_parse. */
  function ParseDevice(ids: seq<Id>, devices: seq<Device>, s: string): (r: Parsed<Device>)
    requires KnownChips(ids)
    ensures r.Good? ==> |r.rest| < |s|
  {
    var colon := IndexOf(s, ':');
    if colon == |s| then Bad
    else
      FoundChip(ids, s[..colon]);
      match FindId(ids, s[..colon])
      case None => Bad
      case Some(id) => ParseDeviceParts(devices, id, s[colon + 1..])
  }

  function ParseDeviceParts(devices: seq<Device>, id: Id, s: string): (r: Parsed<Device>)
    requires KnownChip(id)
    ensures r.Good? ==> |r.rest| <= |s|
  {
    match ParseParts(id, s, StartOffset(devices, id))
    case Bad => Bad
    case Good(parts, t) => FinishDevice(id, parts, t)
  }

  /** The part of device_parse in front of the partitions. */
  lemma DeviceHead(ids: seq<Id>, devices: seq<Device>, s: string)
    requires KnownChips(ids)
    ensures var colon := IndexOf(s, ':');
      if colon == |s| then ParseDevice(ids, devices, s) == Bad
      else match FindId(ids, s[..colon])
        case None => ParseDevice(ids, devices, s) == Bad
        case Some(id) =>
          KnownChip(id) && ParseDevice(ids, devices, s) == ParseDeviceParts(devices, id, s[colon + 1..])
  {
    FoundChip(ids, s[..IndexOf(s, ':')]);
  }

  function FinishDevice(id: Id, parts: seq<Part>, t: string): (r: Parsed<Device>)
    ensures r.Good? ==> |r.rest| <= |t|
  {
    if parts == [] then Bad
    else match SortAll(parts)
      case None => Bad
      case Some(sorted) => Good(Device(id, sorted), if t == "" then t else t[1..])
  }

  /** The loop of parse_mtdparts; an error leaves no devices at all. */
  function ParseDevices(ids: seq<Id>, devices: seq<Device>, s: string): Option<seq<Device>>
    requires KnownChips(ids)
    decreases |s|, 1
  {
    if s == "" then Some(devices) else ParseNextDevice(ids, devices, s)
  }

  function ParseNextDevice(ids: seq<Id>, devices: seq<Device>, s: string): Option<seq<Device>>
    requires KnownChips(ids)
    decreases |s|, 0
  {
    match ParseDevice(ids, devices, s)
    case Bad => None
    case Good(d, t) => if FindDevice(devices, d.id).Some? then None else ParseDevices(ids, devices + [d], t)
  }

  const PREFIX := "mtdparts="

  function ParseMtdparts(ids: seq<Id>, s: string): Option<seq<Device>>
    requires KnownChips(ids)
  {
    if PREFIX <= s && |s| > |PREFIX| then ParseDevices(ids, [], s[|PREFIX|..]) else None
  }

  // ------------------------------------------------------------- round trip

  lemma {:induction false} IndexOfFirst(a: string, c: char, t: string)
    requires c !in a
    ensures IndexOf(a + ([c] + t), c) == |a|
    ensures (a + ([c] + t))[..|a|] == a && (a + ([c] + t))[|a| + 1..] == t
  {
    if a != "" {
      IndexOfFirst(a[1..], c, t);
      assert (a + ([c] + t))[1..] == a[1..] + ([c] + t);
    }
  }

  predicate Printable(p: Part) {
    && MIN_PART_SIZE <= p.size != SIZE_REMAINING && p.offset != OFFSET_NOT_SPECIFIED
    && (p.name.Some? ==> p.name.value != "" && ')' !in p.name.value)
  }

  /** What follows a partition. */
  predicate Follows(t: string) {
    t == "" || t[0] == ',' || t[0] == ';'
  }

  lemma ParseSizeText(p: Part, t: string)
    requires Printable(p) && Stops(t)
    ensures ParseSize(MemsizeFormat(p.size) + t) == Good(p.size, t)
  {
    SizeRoundTrip(p.size, t);
    FormatStart(p.size, t);
  }

  lemma FormatStart(size: u32, t: string)
    ensures CharAt(MemsizeFormat(size) + t, 0) != '-'
  {
    DigitsAreDigits(size / 0x4000_0000);
    DigitsAreDigits(size / 0x10_0000);
    DigitsAreDigits(size / 0x400);
    DigitsAreDigits(size);
  }

  lemma ParseOffsetText(previous: u32, p: Part, t: string)
    requires Printable(p) && Stops(t) && CharAt(t, 0) != '@'
    ensures ParseOffset(OffsetText(previous, p, t)) ==
      (if p.offset != previous then p.offset else OFFSET_NOT_SPECIFIED, t)
  {
    if p.offset != previous {
      SizeRoundTrip(p.offset, t);
      assert OffsetText(previous, p, t)[1..] == MemsizeFormat(p.offset) + t;
    }
  }

  lemma ParseNameText(p: Part, t: string)
    requires Printable(p) && CharAt(t, 0) != '('
    ensures ParseName(NameText(p, t)) == Good(p.name, t)
  {
    if p.name.Some? {
      IndexOfFirst(p.name.value, ')', t);
      assert NameText(p, t)[1..] == p.name.value + (")" + t);
    }
  }

  lemma ParseRoText(p: Part, t: string)
    requires Follows(t)
    ensures ParseRo(RoText(p, t)) == (p.ro, t)
  {
    if p.ro {
      assert RoText(p, t)[..2] == "ro" && RoText(p, t)[2..] == t;
    } else if |t| >= 2 {
      assert t[..2][0] == t[0];
    }
  }

  /** Which characters the pieces of a partition may begin with. */
  lemma Heads(previous: u32, p: Part, t: string)
    requires Follows(t)
    ensures CharAt(RoText(p, t), 0) != '(' && CharAt(RoText(p, t), 0) != '@' && Stops(RoText(p, t))
    ensures CharAt(NameText(p, RoText(p, t)), 0) != '@' && Stops(NameText(p, RoText(p, t)))
    ensures Stops(OffsetText(previous, p, NameText(p, RoText(p, t))))
  {
  }

  /** Parsing the text of one partition gives it back, with the offset open
      exactly when it was not printed. */
  lemma PartRoundTrip(previous: u32, p: Part, t: string)
    requires Printable(p) && Follows(t)
    ensures ParsePart(PartText(previous, p, t)) ==
      Good(p.(offset := if p.offset != previous then p.offset else OFFSET_NOT_SPECIFIED),
           if CharAt(t, 0) == ',' then t[1..] else t)
  {
    var s3 := RoText(p, t);
    var s2 := NameText(p, s3);
    var s1 := OffsetText(previous, p, s2);
    Heads(previous, p, t);
    ParseRoText(p, t);
    ParseNameText(p, s3);
    ParseOffsetText(previous, p, s2);
    ParseSizeText(p, s1);
  }

  /** A partition that the table may hold: it could have been parsed. */
  ghost predicate Storable(id: Id, p: Part) {
    && Printable(p) && KnownChip(id) && Accepts(id.flash, id.chip, p.offset, p.size)
  }

  ghost predicate AllStorable(id: Id, parts: seq<Part>) {
    forall k :: 0 <= k < |parts| ==> Storable(id, parts[k])
  }

  /** What follows the partitions of a device. */
  predicate Ends(t: string) {
    t == "" || t[0] == ';'
  }

  /** The partitions from number k on, gathered as the parser gathers them. */
  function Gather(parts: seq<Part>, k: nat): seq<Part>
    requires k <= |parts|
    decreases |parts| - k
  {
    if k == |parts| then [] else [parts[k]] + Gather(parts, k + 1)
  }

  lemma {:induction false} GatherAll(parts: seq<Part>, k: nat)
    requires k <= |parts|
    ensures Gather(parts, k) == parts[k..]
    decreases |parts| - k
  {
    if k < |parts| {
      GatherAll(parts, k + 1);
      assert parts[k..] == [parts[k]] + parts[k + 1..];
    }
  }

  /** What the text of the partitions from number k on reads as. */
  function Reading(id: Id, parts: seq<Part>, k: nat, t: string): Parsed<seq<Part>>
    requires KnownChip(id) && k <= |parts|
  {
    ParseParts(id, PartsText(parts, k, t), Previous(parts, k))
  }

  /** The text of the partitions from number k on reads back as those. */
  ghost predicate ReadsBack(id: Id, parts: seq<Part>, k: nat, t: string)
    requires KnownChip(id)
  {
    k <= |parts| && Reading(id, parts, k, t) == Good(Gather(parts, k), t)
  }

  /** Induction from n downwards. */
  lemma {:induction false} Downwards(p: nat -> bool, n: nat, k: nat)
    requires k <= n && p(n) && forall j: nat :: j < n && p(j + 1) ==> p(j)
    ensures p(k)
    decreases n - k
  {
    if k < n {
      Downwards(p, n, k + 1);
    }
  }

  lemma ReadsBackEnd(id: Id, parts: seq<Part>, k: nat, t: string)
    requires KnownChip(id) && k == |parts| && Ends(t)
    ensures ReadsBack(id, parts, k, t)
  {
    ParsePartsEnd(id, t, Previous(parts, k));
  }

  lemma ReadsBackStep(id: Id, parts: seq<Part>, k: nat, t: string)
    requires KnownChip(id) && k < |parts| && AllStorable(id, parts) && Ends(t)
    requires ReadsBack(id, parts, k + 1, t)
    ensures ReadsBack(id, parts, k, t)
  {
    PartsStepAt(id, parts, k, t);
  }

  lemma ReadsBackSteps(id: Id, parts: seq<Part>, t: string)
    requires KnownChip(id) && AllStorable(id, parts) && Ends(t)
    ensures forall k: nat :: k < |parts| && ReadsBack(id, parts, k + 1, t) ==> ReadsBack(id, parts, k, t)
  {
    forall k: nat | k < |parts| && ReadsBack(id, parts, k + 1, t)
      ensures ReadsBack(id, parts, k, t)
    {
      ReadsBackStep(id, parts, k, t);
    }
  }

  lemma PartsRoundTrip(id: Id, parts: seq<Part>, k: nat, t: string)
    requires KnownChip(id) && k <= |parts| && AllStorable(id, parts) && Ends(t)
    ensures ReadsBack(id, parts, k, t)
  {
    ReadsBackEnd(id, parts, |parts|, t);
    ReadsBackSteps(id, parts, t);
    Downwards((j: nat) => ReadsBack(id, parts, j, t), |parts|, k);
  }

  lemma ParsePartsEnd(id: Id, t: string, running: u32)
    requires KnownChip(id) && Ends(t)
    ensures ParseParts(id, t, running) == Good([], t)
  {
    if t != "" {
      assert ParseMore(id, t, running) == Good([], t);
    }
  }

  lemma PartsStepAt(id: Id, parts: seq<Part>, k: nat, t: string)
    requires KnownChip(id) && k < |parts| && Storable(id, parts[k])
    requires Ends(t)
    ensures Reading(id, parts, k, t) == Prepend(parts[k], Reading(id, parts, k + 1, t))
  {
    var later := PartsText(parts, k + 1, t);
    assert k + 1 == |parts| ==> later == t;
    PartsStep(id, Previous(parts, k), parts[k], k + 1 < |parts|, later);
  }

  /** One partition, and a comma when more of them follow. */
  lemma PartsStep(id: Id, previous: u32, p: Part, more: bool, later: string)
    requires Storable(id, p) && (more || later == "" || later[0] == ';')
    ensures ParseParts(id, PartText(previous, p, if more then "," + later else later), previous) ==
      Prepend(p, ParseParts(id, later, End(p)))
  {
    var behind := if more then "," + later else later;
    assert more ==> behind[1..] == later;
    PartRoundTrip(previous, p, behind);
    TextStarts(previous, p, behind);
    var raw := p.(offset := if p.offset != previous then p.offset else OFFSET_NOT_SPECIFIED);
    assert Settle(id, raw, previous) == p;
    var text := PartText(previous, p, behind);
    assert ParseParts(id, text, previous) == ParseNext(id, text, previous);
  }

  lemma TextStarts(previous: u32, p: Part, t: string)
    ensures PartText(previous, p, t) != "" && PartText(previous, p, t)[0] != ';'
  {
    DigitsAreDigits(p.size / 0x4000_0000);
    DigitsAreDigits(p.size / 0x10_0000);
    DigitsAreDigits(p.size / 0x400);
    DigitsAreDigits(p.size);
  }

  ghost predicate StrictlySorted(parts: seq<Part>) {
    forall i, j :: 0 <= i < j < |parts| ==> parts[i].offset < parts[j].offset
  }

  lemma {:induction false} SortAddLast(parts: seq<Part>, p: Part)
    requires forall k :: 0 <= k < |parts| ==> parts[k].offset < p.offset
    ensures SortAdd(parts, p) == Some(parts + [p])
  {
    if parts != [] {
      SortAddLast(parts[1..], p);
      assert [parts[0]] + (parts[1..] + [p]) == parts + [p];
    } else {
      assert parts + [p] == [p];
    }
  }

  /** Sorting what is already sorted changes nothing. */
  lemma {:induction false} SortAllSorted(parts: seq<Part>)
    requires StrictlySorted(parts)
    ensures SortAll(parts) == Some(parts)
  {
    if parts != [] {
      var last := |parts| - 1;
      SortAllSorted(parts[..last]);
      SortAddLast(parts[..last], parts[last]);
      assert parts == parts[..last] + [parts[last]];
    }
  }

  ghost predicate ValidIds(ids: seq<Id>) {
    && KnownChips(ids)
    && (forall k :: 0 <= k < |ids| ==> ':' !in ids[k].mtdId)
    && (forall j, k :: 0 <= j < k < |ids| ==>
        ids[j].mtdId != ids[k].mtdId && !(ids[j].kind == ids[k].kind && ids[j].num == ids[k].num))
  }

  /** A device table as it may stand in memory: every partition storable, every
      device listed once. */
  ghost predicate ValidTable(ids: seq<Id>, devices: seq<Device>) {
    && (forall k :: 0 <= k < |devices| ==> ValidDevice(ids, devices[k]))
    && (forall j, k :: 0 <= j < k < |devices| ==> devices[j].id != devices[k].id)
  }

  ghost predicate ValidDevice(ids: seq<Id>, d: Device) {
    d.id in ids && d.parts != [] && AllStorable(d.id, d.parts)
  }

  lemma {:induction false} FindOwnId(ids: seq<Id>, id: Id)
    requires ValidIds(ids) && id in ids
    ensures FindId(ids, id.mtdId) == Some(id)
  {
    if ids[0] != id {
      var k :| 0 < k < |ids| && ids[k] == id;
      assert ids[0].mtdId != ids[k].mtdId;
      assert ids[1..][k - 1] == id;
      FindOwnId(ids[1..], id);
    }
  }

  lemma {:induction false} NotFound(ids: seq<Id>, devices: seq<Device>, id: Id)
    requires ValidIds(ids) && id in ids
    requires forall k :: 0 <= k < |devices| ==> devices[k].id in ids && devices[k].id != id
    ensures FindDevice(devices, id) == None
  {
    if devices != [] {
      assert devices[0].id in ids && devices[0].id != id;
      var j :| 0 <= j < |ids| && ids[j] == devices[0].id;
      var k :| 0 <= k < |ids| && ids[k] == id;
      if j < k {
        assert !(ids[j].kind == ids[k].kind && ids[j].num == ids[k].num);
      } else {
        assert !(ids[k].kind == ids[j].kind && ids[k].num == ids[j].num);
      }
      NotFound(ids, devices[1..], id);
    }
  }

  /** A device is read back with its partitions sorted in, or refused. */
  lemma DeviceRoundTrip(ids: seq<Id>, done: seq<Device>, d: Device, t: string)
    requires ValidIds(ids) && ValidDevice(ids, d) && FindDevice(done, d.id) == None
    requires Ends(t)
    ensures ParseDevice(ids, done, d.id.mtdId + (":" + PartsText(d.parts, 0, t))) == FinishDevice(d.id, d.parts, t)
  {
    var text := PartsText(d.parts, 0, t);
    FindOwnId(ids, d.id);
    IndexOfFirst(d.id.mtdId, ':', text);
    DeviceHead(ids, done, d.id.mtdId + (":" + text));
    DevicePartsRoundTrip(ids, done, d, t);
  }

  lemma DevicePartsRoundTrip(ids: seq<Id>, done: seq<Device>, d: Device, t: string)
    requires KnownChip(d.id) && ValidDevice(ids, d) && FindDevice(done, d.id) == None
    requires Ends(t)
    ensures ParseDeviceParts(done, d.id, PartsText(d.parts, 0, t)) == FinishDevice(d.id, d.parts, t)
  {
    PartsRoundTrip(d.id, d.parts, 0, t);
    GatherAll(d.parts, 0);
    assert d.parts[0..] == d.parts;
  }

  /** The devices from number k on behind those done, each with its partitions
      sorted in; None when one of them holds two partitions at offset 0. */
  function Resort(devices: seq<Device>, k: nat, done: seq<Device>): Option<seq<Device>>
    requires k <= |devices|
    decreases |devices| - k
  {
    if k == |devices| then Some(done)
    else
      match SortAll(devices[k].parts)
      case None => None
      case Some(sorted) => Resort(devices, k + 1, done + [Device(devices[k].id, sorted)])
  }

  /** The devices in front of number k, whatever became of their partitions. */
  ghost predicate DoneUpTo(devices: seq<Device>, k: nat, done: seq<Device>)
    requires k <= |devices|
  {
    |done| == k && forall j :: 0 <= j < k ==> done[j].id == devices[j].id
  }

  /** The text of the devices from number k on is read as they are resorted. */
  ghost predicate ReadsResorted(ids: seq<Id>, devices: seq<Device>, k: nat, done: seq<Device>)
    requires KnownChips(ids) && k <= |devices|
  {
    ParseDevices(ids, done, DevicesText(devices, k)) == Resort(devices, k, done)
  }

  lemma {:induction false} DevicesRoundTrip(ids: seq<Id>, devices: seq<Device>, k: nat, done: seq<Device>)
    requires ValidIds(ids) && ValidTable(ids, devices) && k <= |devices| && DoneUpTo(devices, k, done)
    ensures ReadsResorted(ids, devices, k, done)
    decreases |devices| - k
  {
    if k < |devices| {
      match SortAll(devices[k].parts)
      case None => RefusedStep(ids, devices, k, done);
      case Some(sorted) =>
        DevicesRoundTrip(ids, devices, k + 1, done + [Device(devices[k].id, sorted)]);
        SortedStep(ids, devices, k, done, sorted);
    }
  }

  lemma SortedStep(ids: seq<Id>, devices: seq<Device>, k: nat, done: seq<Device>, sorted: seq<Part>)
    requires ValidIds(ids) && ValidTable(ids, devices) && k < |devices| && DoneUpTo(devices, k, done)
    requires SortAll(devices[k].parts) == Some(sorted)
    requires ReadsResorted(ids, devices, k + 1, done + [Device(devices[k].id, sorted)])
    ensures ReadsResorted(ids, devices, k, done)
  {
    NotFound(ids, done, devices[k].id);
    DevicesStep(ids, done, devices[k], k + 1 < |devices|, DevicesText(devices, k + 1));
  }

  lemma RefusedStep(ids: seq<Id>, devices: seq<Device>, k: nat, done: seq<Device>)
    requires ValidIds(ids) && ValidTable(ids, devices) && k < |devices| && DoneUpTo(devices, k, done)
    requires SortAll(devices[k].parts) == None
    ensures ReadsResorted(ids, devices, k, done)
  {
    NotFound(ids, done, devices[k].id);
    DevicesStep(ids, done, devices[k], k + 1 < |devices|, DevicesText(devices, k + 1));
  }

  /** One device, and a semicolon when more of them follow. */
  lemma DevicesStep(ids: seq<Id>, done: seq<Device>, d: Device, more: bool, later: string)
    requires ValidIds(ids) && ValidDevice(ids, d) && FindDevice(done, d.id) == None
    requires more || later == ""
    ensures ParseDevices(ids, done, d.id.mtdId + (":" + PartsText(d.parts, 0, if more then ";" + later else ""))) ==
      match SortAll(d.parts)
      case None => None
      case Some(sorted) => ParseDevices(ids, done + [Device(d.id, sorted)], later)
  {
    var t := if more then ";" + later else "";
    var s := d.id.mtdId + (":" + PartsText(d.parts, 0, t));
    assert more ==> t[1..] == later;
    DeviceRoundTrip(ids, done, d, t);
    assert ParseDevices(ids, done, s) == ParseNextDevice(ids, done, s);
  }

  lemma {:induction false} ResortExtends(devices: seq<Device>, k: nat, done: seq<Device>)
    requires k <= |devices|
    ensures Resort(devices, k, done).Some? ==> done <= Resort(devices, k, done).value
    decreases |devices| - k
  {
    if k < |devices| && SortAll(devices[k].parts).Some? {
      ResortExtends(devices, k + 1, done + [Device(devices[k].id, SortAll(devices[k].parts).value)]);
    }
  }

  /** Resorting gives the devices back exactly when sorting leaves each of them. */
  lemma {:induction false} ResortExact(devices: seq<Device>, k: nat)
    requires k <= |devices|
    ensures Resort(devices, k, devices[..k]) == Some(devices) <==>
      forall j :: k <= j < |devices| ==> SortAll(devices[j].parts) == Some(devices[j].parts)
    decreases |devices| - k
  {
    if k == |devices| {
      assert devices[..k] == devices;
    } else if SortAll(devices[k].parts) == Some(devices[k].parts) {
      assert devices[..k] + [Device(devices[k].id, devices[k].parts)] == devices[..k + 1];
      ResortExact(devices, k + 1);
    } else if SortAll(devices[k].parts).Some? {
      var next := devices[..k] + [Device(devices[k].id, SortAll(devices[k].parts).value)];
      ResortExtends(devices, k + 1, next);
      assert next[k] != devices[k];
    }
  }

  /** Ascending offsets are needed: partitions with equal offsets come back in
      reverse order, and two at offset 0 are refused. */
  lemma EqualOffsetsReverse(p: Part, q: Part)
    requires p.offset == q.offset
    ensures SortAll([p, q]) == if p.offset == 0 then None else Some([q, p])
  {
    assert [p, q][..1] == [p] && [p][..0] == [];
    assert SortAll([p]) == SortAdd([], p) == Some([p]);
    assert [q] + [p] == [q, p];
  }

  /** What parsing makes of the printed text of any table: the same devices with the
      same sizes, offsets, flags and user names, the partitions sorted in again. */
  lemma TableReadsBack(ids: seq<Id>, devices: seq<Device>)
    requires ValidIds(ids) && devices != [] && ValidTable(ids, devices)
    ensures ParseMtdparts(ids, PREFIX + DevicesText(devices, 0)) == Resort(devices, 0, [])
  {
    var s := PREFIX + DevicesText(devices, 0);
    assert s[|PREFIX|..] == DevicesText(devices, 0);
    DevicesRoundTrip(ids, devices, 0, []);
  }
}
