/**
 The loops behind the partition text: reading numbers, partitions and devices
 with a moving position, and printing into a bounded buffer.
 */
module MtdParser {
  import opened Machine
  import opened Wrappers
  import opened MtdValidate
  import opened MtdText

  /** The digit loop of simple_strtoul. */
  method ReadDigits(text: string, p0: nat, base: nat) returns (value: u32, p: nat)
    requires p0 <= |text| && base <= 16
    ensures p0 <= p <= |text| && (value, text[p..]) == Number(text[p0..], base, 0)
  {
    value, p := 0, p0;
    while p < |text| && DigitOf(text[p]) < base
      invariant p0 <= p <= |text|
      invariant Number(text[p..], base, value) == Number(text[p0..], base, 0)
    {
      assert text[p..][1..] == text[p + 1..];
      value := (value * base + DigitOf(text[p])) % WORD;
      p := p + 1;
    }
  }

  method SimpleStrtoul(text: string, p0: nat) returns (value: u32, p: nat)
    requires p0 <= |text|
    ensures p0 <= p <= |text| && (value, text[p..]) == Strtoul(text[p0..])
  {
    p := p0;
    var base := 10;
    if p < |text| && text[p] == '0' {
      p := p + 1;
      base := 8;
      assert text[p0..][1..] == text[p..];
      if p < |text| && text[p] == 'x' && p + 1 < |text| && DigitOf(text[p + 1]) < 16 {
        p := p + 1;
        base := 16;
        assert text[p0..][2..] == text[p..];
      }
    }
    value, p := ReadDigits(text, p, base);
  }

  method ReadMemsize(text: string, p0: nat) returns (value: u32, p: nat)
    requires p0 <= |text|
    ensures p0 <= p <= |text| && (value, text[p..]) == MemsizeParse(text[p0..])
  {
    value, p := SimpleStrtoul(text, p0);
    if p < |text| && Suffix(text[p]) > 0 {
      value := Scale(value, Suffix(text[p]));
      assert text[p..][1..] == text[p + 1..];
      p := p + 1;
    }
  }

  /** strchr: the position of the first c, or None. */
  method StrChr(text: string, p0: nat, c: char) returns (r: Option<nat>)
    requires p0 <= |text|
    ensures r == if IndexOf(text[p0..], c) == |text| - p0 then None else Some(p0 + IndexOf(text[p0..], c))
    ensures r.Some? ==> p0 <= r.value < |text|
  {
    var p := p0;
    while p < |text| && text[p] != c
      invariant p0 <= p <= |text|
      invariant IndexOf(text[p0..], c) == p - p0 + IndexOf(text[p..], c)
    {
      assert text[p..][1..] == text[p + 1..];
      p := p + 1;
    }
    r := if p < |text| then Some(p) else None;
  }

  method ReadSize(text: string, p0: nat) returns (r: Option<(u32, nat)>)
    requires p0 <= |text|
    ensures match r
      case None => ParseSize(text[p0..]) == Bad
      case Some((size, p)) => p0 < p <= |text| && ParseSize(text[p0..]) == Good(size, text[p..])
  {
    if p0 < |text| && text[p0] == '-' {
      assert text[p0..][1..] == text[p0 + 1..];
      return Some((SIZE_REMAINING, p0 + 1));
    }
    var size, p := ReadMemsize(text, p0);
    r := if size < MIN_PART_SIZE then None else Some((size, p));
  }

  method ReadOffset(text: string, p0: nat) returns (offset: u32, p: nat)
    requires p0 <= |text|
    ensures p0 <= p <= |text| && ParseOffset(text[p0..]) == (offset, text[p..])
  {
    offset, p := OFFSET_NOT_SPECIFIED, p0;
    if p < |text| && text[p] == '@' {
      assert text[p..][1..] == text[p + 1..];
      offset, p := ReadMemsize(text, p + 1);
    }
  }

  method ReadName(text: string, p0: nat) returns (r: Option<(Option<string>, nat)>)
    requires p0 <= |text|
    ensures match r
      case None => ParseName(text[p0..]) == Bad
      case Some((name, p)) => p0 <= p <= |text| && ParseName(text[p0..]) == Good(name, text[p..])
  {
    if p0 < |text| && text[p0] == '(' {
      var name := p0 + 1;
      assert text[p0..][1..] == text[name..];
      var closing := StrChr(text, name, ')');
      if closing == None || closing.value == name {
        return None;
      }
      var p := closing.value;
      assert text[name..][..p - name] == text[name..p] && text[name..][p - name + 1..] == text[p + 1..];
      return Some((Some(text[name..p]), p + 1));
    }
    r := Some((None, p0));
  }

  method ReadRo(text: string, p0: nat) returns (ro: bool, p: nat)
    requires p0 <= |text|
    ensures p0 <= p <= |text| && ParseRo(text[p0..]) == (ro, text[p..])
  {
    ro, p := false, p0;
    if p + 2 <= |text| {
      assert text[p..][..2] == text[p..p + 2] && text[p..][2..] == text[p + 2..];
      if text[p..p + 2] == "ro" {
        ro, p := true, p + 2;
      }
    }
  }

  /** part_parse: the partition and where the text goes on. */
  method ReadPart(text: string, p0: nat) returns (r: Option<(Part, nat)>)
    requires p0 <= |text|
    ensures match r
      case None => ParsePart(text[p0..]) == Bad
      case Some((part, p)) => p0 < p <= |text| && ParsePart(text[p0..]) == Good(part, text[p..])
  {
    var first := ReadSize(text, p0);
    if first == None {
      return None;
    }
    var size, p := first.value.0, first.value.1;
    var offset;
    offset, p := ReadOffset(text, p);
    var named := ReadName(text, p);
    if named == None {
      return None;
    }
    p := named.value.1;
    var ro;
    ro, p := ReadRo(text, p);
    ghost var part := Part(size, offset, named.value.0, ro);
    assert ParsePart(text[p0..]) == FinishPart(part, text[p..]);
    r := ReadSeparator(text, p, Part(size, offset, named.value.0, ro));
  }

  method ReadSeparator(text: string, p: nat, part: Part) returns (r: Option<(Part, nat)>)
    requires p <= |text|
    ensures match r
      case None => FinishPart(part, text[p..]) == Bad
      case Some((part', q)) => p <= q <= |text| && part' == part && FinishPart(part, text[p..]) == Good(part, text[q..])
  {
    if p < |text| && text[p] == ',' {
      if part.size == SIZE_REMAINING {
        return None;
      }
      assert text[p..][1..] == text[p + 1..];
      return Some((part, p + 1));
    } else if p < |text| && text[p] != ';' {
      return None;
    }
    r := Some((part, p));
  }

  /** The partition loop of device_parse. */
  method ReadParts(id: Id, text: string, p0: nat, running0: u32) returns (r: Option<(seq<Part>, nat)>)
    requires p0 <= |text| && KnownChip(id)
    ensures match r
      case None => ParseParts(id, text[p0..], running0) == Bad
      case Some((parts, p)) => p0 <= p <= |text| && ParseParts(id, text[p0..], running0) == Good(parts, text[p..])
  {
    var p: nat, running: u32, parts: seq<Part> := p0, running0, [];
    ghost var all := ParseParts(id, text[p0..], running0);
    ContinuesStart(all);
    while p < |text| && text[p] != ';'
      invariant p0 <= p <= |text|
      invariant Continues(all, parts, ParseParts(id, text[p..], running))
      decreases |text| - p
    {
      var next := ReadNext(id, text, p, running);
      if next == None {
        return None;
      }
      ContinuesStep(all, parts, next.value.0, ParseParts(id, text[next.value.1..], End(next.value.0)));
      parts, p := parts + [next.value.0], next.value.1;
      running := End(parts[|parts| - 1]);
    }
    assert parts + [] == parts;
    assert ParseParts(id, text[p..], running) == Good([], text[p..]);
    r := Some((parts, p));
  }

  /** `all` is what comes out when r follows the partitions read so far. */
  ghost predicate Continues(all: Parsed<seq<Part>>, parts: seq<Part>, r: Parsed<seq<Part>>) {
    match r
    case Bad => all == Bad
    case Good(ps, rest) => all == Good(parts + ps, rest)
  }

  lemma ContinuesStart(r: Parsed<seq<Part>>)
    ensures Continues(r, [], r)
  {
    if r.Good? {
      assert [] + r.value == r.value;
    }
  }

  lemma ContinuesStep(all: Parsed<seq<Part>>, parts: seq<Part>, p: Part, r: Parsed<seq<Part>>)
    requires Continues(all, parts, Prepend(p, r))
    ensures Continues(all, parts + [p], r)
  {
    if r.Good? {
      assert (parts + [p]) + r.value == parts + ([p] + r.value);
    }
  }

  /** One turn of that loop. */
  method ReadNext(id: Id, text: string, p0: nat, running: u32) returns (r: Option<(Part, nat)>)
    requires p0 < |text| && text[p0] != ';' && KnownChip(id)
    ensures match r
      case None => ParseParts(id, text[p0..], running) == Bad
      case Some((part, p)) =>
        (p0 < p <= |text| && ParseParts(id, text[p0..], running) == Prepend(part, ParseParts(id, text[p..], End(part))))
  {
    assert ParseParts(id, text[p0..], running) == ParseNext(id, text[p0..], running);
    var next := ReadPart(text, p0);
    if next == None {
      return None;
    }
    var settled := ReadSettled(id, next.value.0, running);
    if settled == None {
      return None;
    }
    r := Some((settled.value, next.value.1));
  }

  /** The running offset where none was given, and the validation. */
  method ReadSettled(id: Id, raw: Part, running: u32) returns (r: Option<Part>)
    requires KnownChip(id)
    ensures var p := Settle(id, raw, running);
      r == if Accepts(id.flash, id.chip, p.offset, p.size) then Some(p) else None
  {
    var part := raw.(offset := if raw.offset == OFFSET_NOT_SPECIFIED then running else raw.offset);
    var ok, size := PartValidate(id.flash, id.chip, part.offset, part.size);
    r := if ok then Some(part.(size := size)) else None;
  }

  /** Moving the parsed partitions into the device, in the order of the text. */
  method SortParts(parts: seq<Part>) returns (r: Option<seq<Part>>)
    ensures r == SortAll(parts)
  {
    var sorted := [];
    for k := 0 to |parts|
      invariant SortAll(parts[..k]) == Some(sorted)
    {
      assert parts[..k + 1][..k] == parts[..k];
      var next := SortAdd(sorted, parts[k]);
      if next == None {
        SortAllFails(parts, k + 1);
        return None;
      }
      sorted := next.value;
    }
    assert parts[..|parts|] == parts;
    r := Some(sorted);
  }

  lemma {:induction false} SortAllFails(parts: seq<Part>, k: nat)
    requires k <= |parts| && SortAll(parts[..k]) == None
    ensures SortAll(parts) == None
    decreases |parts| - k
  {
    if k < |parts| {
      assert parts[..k + 1][..k] == parts[..k];
      SortAllFails(parts, k + 1);
    } else {
      assert parts[..k] == parts;
    }
  }

  lemma Slices(text: string, from: nat, p: nat)
    requires from <= p < |text|
    ensures text[from..][..p - from] == text[from..p]
    ensures text[from..][p - from + 1..] == text[p + 1..]
  {
  }

  /** device_parse. */
  method ReadDevice(ids: seq<Id>, devices: seq<Device>, text: string, p0: nat) returns (r: Option<(Device, nat)>)
    requires p0 <= |text| && KnownChips(ids)
    ensures match r
      case None => ParseDevice(ids, devices, text[p0..]) == Bad
      case Some((d, p)) => p0 < p <= |text| && ParseDevice(ids, devices, text[p0..]) == Good(d, text[p..])
  {
    DeviceHead(ids, devices, text[p0..]);
    var colon := StrChr(text, p0, ':');
    if colon == None {
      return None;
    }
    var p := colon.value;
    Slices(text, p0, p);
    var id := FindId(ids, text[p0..p]);
    if id == None {
      return None;
    }
    r := ReadDeviceParts(devices, id.value, text, p + 1);
  }

  method ReadDeviceParts(devices: seq<Device>, id: Id, text: string, p0: nat) returns (r: Option<(Device, nat)>)
    requires p0 <= |text| && KnownChip(id)
    ensures match r
      case None => ParseDeviceParts(devices, id, text[p0..]) == Bad
      case Some((d, p)) => p0 <= p <= |text| && ParseDeviceParts(devices, id, text[p0..]) == Good(d, text[p..])
  {
    var parsed := ReadParts(id, text, p0, StartOffset(devices, id));
    if parsed == None {
      return None;
    }
    var parts, q := parsed.value.0, parsed.value.1;
    if parts == [] {
      return None;
    }
    var sorted := SortParts(parts);
    if sorted == None {
      return None;
    }
    if q < |text| {
      assert text[q..][1..] == text[q + 1..];
      q := q + 1;
    }
    r := Some((Device(id, sorted.value), q));
  }

  /** parse_mtdparts: the whole table, or none of it. */
  method ReadTable(ids: seq<Id>, text: string) returns (r: Option<seq<Device>>)
    requires KnownChips(ids)
    ensures r == ParseMtdparts(ids, text)
  {
    if |text| < 9 || text[..9] != PREFIX {
      return None;
    }
    var p: nat, devices: seq<Device> := 9, [];
    if p == |text| {
      return None;
    }
    while p < |text|
      invariant 9 <= p <= |text|
      invariant ParseDevices(ids, [], text[9..]) == ParseDevices(ids, devices, text[p..])
    {
      var next := ReadDevice(ids, devices, text, p);
      if next == None {
        return None;
      }
      var dev := next.value.0;
      if FindDevice(devices, dev.id).Some? {
        return None;
      }
      devices := devices + [dev];
      p := next.value.1;
    }
    r := Some(devices);
  }

  // --------------------------------------------------------------- printing

  /** What has been printed, what is still to come, and the room left: the prefix
      is not charged. */
  ghost predicate Printing(out: string, rest: string, whole: string, limit: int, maxlen: int) {
    out + rest == PREFIX + whole && maxlen == limit - (|out| - |PREFIX|) && maxlen >= 0
  }

  lemma Print(out: string, piece: string, rest: string, whole: string, limit: int, maxlen: int)
    requires Printing(out, piece + rest, whole, limit, maxlen)
    ensures |piece| > maxlen ==> |whole| > limit
    ensures |piece| <= maxlen ==> Printing(out + piece, rest, whole, limit, maxlen - |piece|)
  {
    assert (out + piece) + rest == out + (piece + rest);
    assert |out + (piece + rest)| == |PREFIX + whole|;
  }

  /** One partition. */
  method PrintPart(p: Part, previous: u32, out0: string, maxlen0: int,
                   ghost rest: string, ghost whole: string, ghost limit: int)
    returns (ok: bool, out: string, maxlen: int)
    requires Printing(out0, PartText(previous, p, rest), whole, limit, maxlen0)
    ensures ok ==> Printing(out, rest, whole, limit, maxlen)
    ensures !ok ==> |whole| > limit
  {
    out, maxlen := out0, maxlen0;
    ghost var s3 := RoText(p, rest);
    ghost var s2 := NameText(p, s3);
    var size := MemsizeFormat(p.size);
    ok, out, maxlen := PrintPiece(out, maxlen, size, OffsetText(previous, p, s2), whole, limit);
    if !ok {
      return;
    }
    if p.offset != previous {
      var offset := MemsizeFormat(p.offset);
      assert "@" + (offset + s2) == ("@" + offset) + s2;
      ok, out, maxlen := PrintPiece(out, maxlen, "@" + offset, s2, whole, limit);
      if !ok {
        return;
      }
    }
    if p.name.Some? {
      var name := "(" + p.name.value + ")";
      assert "(" + (p.name.value + (")" + s3)) == name + s3;
      ok, out, maxlen := PrintPiece(out, maxlen, name, s3, whole, limit);
      if !ok {
        return;
      }
    }
    if p.ro {
      ok, out, maxlen := PrintPiece(out, maxlen, "ro", rest, whole, limit);
    }
  }

  /** The length test that precedes every copy. */
  method PrintPiece(out0: string, maxlen0: int, piece: string,
                    ghost rest: string, ghost whole: string, ghost limit: int)
    returns (ok: bool, out: string, maxlen: int)
    requires Printing(out0, piece + rest, whole, limit, maxlen0)
    ensures ok ==> Printing(out, rest, whole, limit, maxlen)
    ensures !ok ==> |whole| > limit
  {
    Print(out0, piece, rest, whole, limit, maxlen0);
    if |piece| > maxlen0 {
      return false, out0, maxlen0;
    }
    ok, out, maxlen := true, out0 + piece, maxlen0 - |piece|;
  }

  /** One partition, and a comma when it is not the last. */
  method PrintNext(p: Part, previous: u32, more: bool, out0: string, maxlen0: int,
                   ghost later: string, ghost whole: string, ghost limit: int)
    returns (ok: bool, out: string, maxlen: int)
    requires Printing(out0, PartText(previous, p, if more then "," + later else later), whole, limit, maxlen0)
    ensures ok ==> Printing(out, later, whole, limit, maxlen)
    ensures !ok ==> |whole| > limit
  {
    ok, out, maxlen := PrintPart(p, previous, out0, maxlen0, if more then "," + later else later, whole, limit);
    if ok && more {
      ok, out, maxlen := PrintPiece(out, maxlen, ",", later, whole, limit);
    }
  }

  /** Partition k of a device. */
  method PrintPartOf(parts: seq<Part>, k: nat, previous: u32, out0: string, maxlen0: int,
                     ghost rest: string, ghost whole: string, ghost limit: int)
    returns (ok: bool, out: string, maxlen: int)
    requires k < |parts| && previous == Previous(parts, k)
    requires Printing(out0, PartsText(parts, k, rest), whole, limit, maxlen0)
    ensures ok ==> Printing(out, PartsText(parts, k + 1, rest), whole, limit, maxlen)
    ensures !ok ==> |whole| > limit
  {
    PartsTextFrom(parts, k, rest);
    ghost var later := PartsText(parts, k + 1, rest);
    ok, out, maxlen := PrintNext(parts[k], previous, |parts| > k + 1, out0, maxlen0, later, whole, limit);
  }

  /** The partitions of one device. */
  method PrintParts(parts: seq<Part>, out0: string, maxlen0: int,
                    ghost rest: string, ghost whole: string, ghost limit: int)
    returns (ok: bool, out: string, maxlen: int)
    requires Printing(out0, PartsText(parts, 0, rest), whole, limit, maxlen0)
    ensures ok ==> Printing(out, rest, whole, limit, maxlen)
    ensures !ok ==> |whole| > limit
  {
    ok, out, maxlen := true, out0, maxlen0;
    var previous: u32 := 0;
    var k := 0;
    while k < |parts|
      invariant k <= |parts| && previous == Previous(parts, k)
      invariant Printing(out, PartsText(parts, k, rest), whole, limit, maxlen)
    {
      ok, out, maxlen := PrintPartOf(parts, k, previous, out, maxlen, rest, whole, limit);
      if !ok {
        return;
      }
      previous := NextOffset(parts, k);
      k := k + 1;
    }
    PartsTextEnd(parts, k, rest);
  }

  /** The address behind partition k. */
  method NextOffset(parts: seq<Part>, k: nat) returns (next: u32)
    requires k < |parts|
    ensures next == Previous(parts, k + 1)
  {
    next := (parts[k].offset as int + parts[k].size) % WORD;
  }

  lemma PartsTextFrom(parts: seq<Part>, k: nat, rest: string)
    requires k < |parts|
    ensures var later := PartsText(parts, k + 1, rest);
      var behind := if |parts| > k + 1 then "," + later else later;
      PartsText(parts, k, rest) == PartText(Previous(parts, k), parts[k], behind)
  {
    if |parts| == k + 1 {
      PartsTextEnd(parts, k + 1, rest);
    }
  }

  lemma PartsTextEnd(parts: seq<Part>, k: nat, rest: string)
    requires k == |parts|
    ensures PartsText(parts, k, rest) == rest
  {
  }

  /** generate_mtdparts: the whole text if what follows the prefix fits in
      buflen - 1 characters, and an empty text for an empty table. */
  method GenerateMtdparts(devices: seq<Device>, buflen: nat) returns (ok: bool, out: string)
    requires buflen > 0
    ensures ok == (|DevicesText(devices, 0)| <= buflen - 1)
    ensures ok ==> out == if devices == [] then "" else PREFIX + DevicesText(devices, 0)
  {
    var maxlen: int := buflen - 1;
    ghost var limit, whole := buflen - 1, DevicesText(devices, 0);
    if devices == [] {
      return true, "";
    }
    ok, out := true, PREFIX;
    var k := 0;
    while k < |devices|
      invariant k <= |devices| && Printing(out, DevicesText(devices, k), whole, limit, maxlen)
    {
      var d := devices[k];
      var head := d.id.mtdId + ":";
      ghost var behind := Behind(devices, k);
      assert head + PartsText(d.parts, 0, behind) == d.id.mtdId + (":" + PartsText(d.parts, 0, behind));
      ok, out, maxlen := PrintPiece(out, maxlen, head, PartsText(d.parts, 0, behind), whole, limit);
      if !ok {
        return;
      }
      ok, out, maxlen := PrintParts(d.parts, out, maxlen, behind, whole, limit);
      if !ok {
        return;
      }
      if k + 1 < |devices| {
        ok, out, maxlen := PrintPiece(out, maxlen, ";", DevicesText(devices, k + 1), whole, limit);
        if !ok {
          return;
        }
      }
      k := k + 1;
    }
    assert out + "" == out;
  }
}
