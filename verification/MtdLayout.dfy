/** What the printed text of the partition table looks like, in one formula for each of its
 parts. */
module MtdLayout {
  import opened Arithmetic
  import opened Machine
  import opened Wrappers
  import opened MtdText

  // ----------------------------------------------------------------- sizes

  lemma FormatGiga(x: u32, n: nat)
    requires x == n * 0x4000_0000
    ensures MemsizeFormat(x) == Digits(n) + "g"
  {
    DivModUnique(x, 0x4000_0000, n, 0);
  }

  lemma FormatMega(x: u32, n: nat)
    requires x == n * 0x10_0000 && n % 0x400 != 0
    ensures MemsizeFormat(x) == Digits(n) + "m"
  {
    DivModUnique(x, 0x10_0000, n, 0);
    DivModUnique(x, 0x4000_0000, n / 0x400, n % 0x400 * 0x10_0000);
  }

  lemma FormatKilo(x: u32, n: nat)
    requires x == n * 0x400 && n % 0x400 != 0
    ensures MemsizeFormat(x) == Digits(n) + "k"
  {
    DivModUnique(x, 0x400, n, 0);
    DivModUnique(x, 0x10_0000, n / 0x400, n % 0x400 * 0x400);
    NotLarger(x, 0x10_0000);
  }

  lemma FormatPlain(x: u32)
    requires x % 0x400 != 0
    ensures MemsizeFormat(x) == Digits(x)
  {
    if x % 0x10_0000 == 0 {
      DivModUnique(x, 0x400, x / 0x10_0000 * 0x400, 0);
    }
    NotLarger(x, 0x10_0000);
  }

  lemma NotLarger(x: nat, unit: nat)
    requires unit == 0x10_0000 && x % unit != 0
    ensures x % 0x4000_0000 != 0
  {
    if x % 0x4000_0000 == 0 {
      DivModUnique(x, unit, x / 0x4000_0000 * 0x400, 0);
    }
  }

  /** A size is printed in the largest unit that divides it. */
  lemma FormatUnits(x: u32, n: nat)
    ensures x == n * 0x4000_0000 ==> MemsizeFormat(x) == Digits(n) + "g"
    ensures x == n * 0x10_0000 && n % 0x400 != 0 ==> MemsizeFormat(x) == Digits(n) + "m"
    ensures x == n * 0x400 && n % 0x400 != 0 ==> MemsizeFormat(x) == Digits(n) + "k"
    ensures x == n && n % 0x400 != 0 ==> MemsizeFormat(x) == Digits(n)
  {
    if x == n * 0x4000_0000 { FormatGiga(x, n); }
    if n % 0x400 != 0 {
      if x == n * 0x10_0000 { FormatMega(x, n); }
      if x == n * 0x400 { FormatKilo(x, n); }
      if x == n { FormatPlain(x); }
    }
  }

  // ------------------------------------------------------------ partitions

  function OffsetPiece(previous: u32, p: Part): string {
    if p.offset != previous then "@" + MemsizeFormat(p.offset) else ""
  }

  function NamePiece(p: Part): string {
    if p.name.Some? then "(" + p.name.value + ")" else ""
  }

  function RoPiece(p: Part): string {
    if p.ro then "ro" else ""
  }

  /** Size, offset, name and flag. */
  function PartPiece(previous: u32, p: Part): string {
    MemsizeFormat(p.size) + OffsetPiece(previous, p) + NamePiece(p) + RoPiece(p)
  }

  lemma RoLayout(p: Part, t: string)
    ensures RoText(p, t) == RoPiece(p) + t
  {
  }

  lemma NameLayout(p: Part, t: string)
    ensures NameText(p, t) == NamePiece(p) + t
  {
  }

  lemma OffsetLayout(previous: u32, p: Part, t: string)
    ensures OffsetText(previous, p, t) == OffsetPiece(previous, p) + t
  {
    var size := MemsizeFormat(p.offset);
    assert "@" + (size + t) == ("@" + size) + t;
  }

  lemma Pieces(a: string, b: string, c: string, d: string, e: string)
    ensures a + (b + (c + (d + e))) == (a + b + c + d) + e
  {
  }

  lemma PartLayout(previous: u32, p: Part, t: string)
    ensures PartText(previous, p, t) == PartPiece(previous, p) + t
  {
    RoLayout(p, t);
    NameLayout(p, RoText(p, t));
    OffsetLayout(previous, p, NameText(p, RoText(p, t)));
    Pieces(MemsizeFormat(p.size), OffsetPiece(previous, p), NamePiece(p), RoPiece(p), t);
  }

  // ---------------------------------------------------------------- lists

  function Separated(texts: seq<string>, c: char): string {
    if texts == [] then "" else if |texts| == 1 then texts[0] else texts[0] + [c] + Separated(texts[1..], c)
  }

  /** The texts of the partitions from number k on. */
  function PartPieces(parts: seq<Part>, k: nat): seq<string>
    requires k <= |parts|
    decreases |parts| - k
  {
    if k == |parts| then [] else [PartPiece(Previous(parts, k), parts[k])] + PartPieces(parts, k + 1)
  }

  lemma SeparatedMore(first: string, rest: seq<string>, c: char, t: string)
    ensures Separated([first] + rest, c) + t ==
      if rest == [] then first + t else first + ([c] + (Separated(rest, c) + t))
  {
    assert ([first] + rest)[1..] == rest;
  }

  /** One partition after the other, separated by commas. */
  lemma {:induction false} PartsLayout(parts: seq<Part>, k: nat, t: string)
    requires k < |parts|
    ensures PartsText(parts, k, t) == Separated(PartPieces(parts, k), ',') + t
    decreases |parts| - k
  {
    var piece := PartPiece(Previous(parts, k), parts[k]);
    var behind := if k + 1 < |parts| then "," + PartsText(parts, k + 1, t) else t;
    PartLayout(Previous(parts, k), parts[k], behind);
    assert PartsText(parts, k, t) == piece + behind;
    SeparatedMore(piece, PartPieces(parts, k + 1), ',', t);
    if k + 1 < |parts| {
      PartsLayout(parts, k + 1, t);
    }
  }

  // ------------------------------------------------ partitions side by side

  /** Each one begins where the one in front of it ends, the first one at 0. */
  predicate Adjoining(parts: seq<Part>) {
    && (parts != [] ==> parts[0].offset == 0)
    && forall j, k :: 0 <= j && k == j + 1 < |parts| ==>
      parts[k].offset as int == parts[j].offset as int + parts[j].size
  }

  /** Size, name and flag only. */
  function BarePieces(parts: seq<Part>, k: nat): seq<string>
    requires k <= |parts|
    decreases |parts| - k
  {
    if k == |parts| then []
    else [MemsizeFormat(parts[k].size) + NamePiece(parts[k]) + RoPiece(parts[k])] + BarePieces(parts, k + 1)
  }

  lemma BarePiece(p: Part)
    ensures PartPiece(p.offset, p) == MemsizeFormat(p.size) + NamePiece(p) + RoPiece(p)
  {
    assert MemsizeFormat(p.size) + "" == MemsizeFormat(p.size);
  }

  lemma AdjoiningPrevious(parts: seq<Part>, k: nat)
    requires Adjoining(parts) && k < |parts|
    ensures Previous(parts, k) == parts[k].offset
  {
    if k > 0 {
      var sum := parts[k - 1].offset as int + parts[k - 1].size;
      assert parts[k].offset as int == sum && sum % WORD == sum;
    }
  }

  /** No offset is printed for them, so offsets are left out exactly where nothing is lost. */
  lemma {:induction false} AdjoiningPrints(parts: seq<Part>, k: nat)
    requires Adjoining(parts) && k <= |parts|
    ensures PartPieces(parts, k) == BarePieces(parts, k)
    decreases |parts| - k
  {
    if k < |parts| {
      AdjoiningPrints(parts, k + 1);
      AdjoiningPrevious(parts, k);
      BarePiece(parts[k]);
      var piece := MemsizeFormat(parts[k].size) + NamePiece(parts[k]) + RoPiece(parts[k]);
      assert PartPieces(parts, k) == [piece] + PartPieces(parts, k + 1);
    }
  }

  /** And from sizes alone they are read back, one behind the other. */
  lemma AdjoiningReads(id: Id, parts: seq<Part>, t: string)
    requires KnownChip(id) && AllStorable(id, parts) && Adjoining(parts) && parts != [] && Ends(t)
    ensures ParseParts(id, Separated(BarePieces(parts, 0), ',') + t, 0) == Good(parts, t)
  {
    AdjoiningPrints(parts, 0);
    PartsLayout(parts, 0, t);
    PartsRoundTrip(id, parts, 0, t);
    GatherAll(parts, 0);
    assert parts[0..] == parts;
  }

  /** One partition without an offset, where partitions begin at its offset anyway. */
  lemma BareReads(id: Id, q: Part)
    requires Storable(id, q)
    ensures ParseParts(id, MemsizeFormat(q.size) + NamePiece(q) + RoPiece(q), q.offset) == Good([q], "")
  {
    var text := MemsizeFormat(q.size) + NamePiece(q) + RoPiece(q);
    BarePiece(q);
    PartLayout(q.offset, q, "");
    assert text + "" == text;
    PartsStep(id, q.offset, q, false, "");
    ParsePartsEnd(id, "", End(q));
    assert [q] + [] == [q];
  }

  lemma OneFinished(id: Id, q: Part)
    ensures FinishDevice(id, [q], "") == Good(Device(id, [q]), "")
  {
    SortAllSorted([q]);
  }

  /** What `mtdparts add` makes of a partition without an offset: it starts where the last one of the
      device ends, or at 0. */
  lemma AddedBehind(devices: seq<Device>, id: Id, q: Part)
    requires Storable(id, q)
    requires match FindDevice(devices, id)
      case None => q.offset == 0
      case Some(d) =>
        if d.parts == [] then q.offset == 0
        else q.offset as int == d.parts[|d.parts| - 1].offset as int + d.parts[|d.parts| - 1].size
    ensures ParseDeviceParts(devices, id, MemsizeFormat(q.size) + NamePiece(q) + RoPiece(q)) ==
      Good(Device(id, [q]), "")
  {
    assert StartOffset(devices, id) == q.offset;
    BareReads(id, q);
    OneFinished(id, q);
  }

  /** The id, a colon, the partitions. */
  function DevicePiece(d: Device): string {
    d.id.mtdId + ":" + Separated(PartPieces(d.parts, 0), ',')
  }

  function DevicePieces(devices: seq<Device>, k: nat): seq<string>
    requires k <= |devices|
    decreases |devices| - k
  {
    if k == |devices| then [] else [DevicePiece(devices[k])] + DevicePieces(devices, k + 1)
  }

  lemma DeviceLayout(d: Device, rest: string)
    requires d.parts != []
    ensures d.id.mtdId + (":" + PartsText(d.parts, 0, rest)) == DevicePiece(d) + rest
  {
    PartsLayout(d.parts, 0, rest);
    WithId(d.id.mtdId, Separated(PartPieces(d.parts, 0), ','), rest);
  }

  lemma WithId(id: string, parts: string, rest: string)
    ensures id + (":" + (parts + rest)) == id + ":" + parts + rest
  {
  }

  /** One device after the other, separated by semicolons. */
  lemma {:induction false} TableLayout(devices: seq<Device>, k: nat)
    requires k < |devices| && forall j :: 0 <= j < |devices| ==> devices[j].parts != []
    ensures DevicesText(devices, k) == Separated(DevicePieces(devices, k), ';')
    decreases |devices| - k
  {
    var rest := DevicePieces(devices, k + 1);
    DeviceLayout(devices[k], Behind(devices, k));
    SeparatedMore(DevicePiece(devices[k]), rest, ';', "");
    assert Separated(DevicePieces(devices, k), ';') + "" == Separated(DevicePieces(devices, k), ';');
    if k + 1 < |devices| {
      TableLayout(devices, k + 1);
      assert Separated(rest, ';') + "" == Separated(rest, ';');
    }
  }
}
