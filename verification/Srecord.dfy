/**
 The upload of memory as Motorola S-records, and the decoder of S-records that the
 download uses: what one sends, the other reads back.
 */
module Srecord {
  import opened Machine
  import opened Wrappers

  const BYTES_PER_RECORD := 16
  const BUFFER_SIZE := 2 * BYTES_PER_RECORD + 16

  // -------------------------------------------------------------- the format

  function HexDigit(v: nat): char
    requires v < 16
  {
    if v < 10 then '0' + v as char else 'A' + (v - 10) as char
  }

  function Hex2(b: byte): string {
    [HexDigit(b / 16), HexDigit(b % 16)]
  }

  /** The first n bytes in hexadecimal. */
  function HexText(bytes: seq<byte>, n: nat): (r: string)
    requires n <= |bytes|
    ensures |r| == 2 * n
  {
    if n == 0 then "" else HexText(bytes, n - 1) + Hex2(bytes[n - 1])
  }

  /** The sum of the first n bytes. */
  function Sum(bytes: seq<byte>, n: nat): nat
    requires n <= |bytes|
  {
    if n == 0 then 0 else Sum(bytes, n - 1) + bytes[n - 1]
  }

  /** The first n bytes as one number, the most significant first. */
  function Number(bytes: seq<byte>, n: nat): nat
    requires n <= |bytes|
  {
    if n == 0 then 0 else Number(bytes, n - 1) * 0x100 + bytes[n - 1]
  }

  function AddressBytes(a: u32): (r: seq<byte>)
    ensures |r| == 4
  {
    [a / 0x100_0000, a / 0x1_0000 % 0x100, a / 0x100 % 0x100, a % 0x100]
  }

  /** The ones' complement of a sum, in 8 bits. */
  function Complement(sum: nat): byte {
    0xFF - sum % 0x100
  }

  datatype Block = Block(address: u32, data: seq<byte>)

  /** The bytes of an S3 record: its length, the address, the data, the checksum. */
  function RecordBytes(b: Block): (r: seq<byte>)
    requires |b.data| <= 250
    ensures |r| == |b.data| + 6
  {
    Checked([4 + |b.data| + 1] + (AddressBytes(b.address) + b.data))
  }

  function Checked(body: seq<byte>): (r: seq<byte>)
    ensures |r| == |body| + 1
  {
    body + [Complement(Sum(body, |body|))]
  }

  function Line(bytes: seq<byte>): (r: string)
    ensures |r| == 2 * |bytes| + 3
  {
    "S3" + HexText(bytes, |bytes|) + "\n"
  }

  function Record(b: Block): string
    requires |b.data| <= 250
  {
    Line(RecordBytes(b))
  }

  const START := "S0030000FC\n"
  const FINISH := "S70500000000FA\n"

  /** n bytes of memory; addresses wrap. */
  function Bytes(memory: u32 -> byte, address: u32, n: nat): (r: seq<byte>)
    ensures |r| == n
  {
    seq(n, i requires 0 <= i < n => memory((address + i) % 0x1_0000_0000))
  }

  /** The memory cut into blocks of 16 bytes and a shorter last one. */
  function Blocks(memory: u32 -> byte, address: u32, count: nat): (r: seq<Block>)
    ensures forall k :: 0 <= k < |r| ==> 0 < |r[k].data| <= BYTES_PER_RECORD
    decreases count
  {
    if count == 0 then []
    else
      var n := if count < BYTES_PER_RECORD then count else BYTES_PER_RECORD;
      [Block(address, Bytes(memory, address, n))] + Blocks(memory, (address + n) % 0x1_0000_0000, count - n)
  }

  function Records(blocks: seq<Block>): seq<string>
    requires forall k :: 0 <= k < |blocks| ==> |blocks[k].data| <= BYTES_PER_RECORD
  {
    seq(|blocks|, k requires 0 <= k < |blocks| => Record(blocks[k]))
  }

  function Upload(memory: u32 -> byte, address: u32, count: nat): seq<string> {
    [START] + Records(Blocks(memory, address, count)) + [FINISH]
  }

  /** Every data record fits the buffer with its NUL; a full one fills it. */
  lemma RecordFits(b: Block)
    requires |b.data| <= BYTES_PER_RECORD
    ensures |Record(b)| + 1 <= BUFFER_SIZE
    ensures |b.data| == BYTES_PER_RECORD <==> |Record(b)| + 1 == BUFFER_SIZE
  {
  }

  // -------------------------------------------------------------- the decoder

  datatype Decoded = Good(kind: nat, address: u32, data: seq<byte>) | Empty | BadType | NoRecord | BadChecksum

  /** hex1_bin. */
  function Hex1Bin(c: char): Option<nat> {
    if '0' <= c <= '9' then Some(c as nat - '0' as nat)
    else if 'a' <= c <= 'f' then Some(c as nat - 'a' as nat + 10)
    else if 'A' <= c <= 'F' then Some(c as nat - 'A' as nat + 10)
    else None
  }

  /** hex2_bin. */
  function Hex2Bin(s: string, p: nat): Option<byte> {
    var i, j := Hex1Bin(CharAt(s, p)), Hex1Bin(CharAt(s, p + 1));
    if i == None || j == None then None else Some(16 * i.value + j.value)
  }

  /** n bytes from position p on. */
  function ReadBytes(s: string, p: nat, n: nat): (r: Option<seq<byte>>)
    ensures r.Some? ==> |r.value| == n
  {
    if n == 0 then Some([])
    else
      var front, last := ReadBytes(s, p, n - 1), Hex2Bin(s, p + 2 * (n - 1));
      if front == None || last == None then None else Some(front.value + [last.value])
  }

  /** How many address bytes a record of this type has; none for an unknown type. */
  function AddressLength(kind: char): nat {
    if kind == '3' || kind == '7' then 4
    else if kind == '2' || kind == '8' then 3
    else if kind == '0' || kind == '1' || kind == '5' || kind == '9' then 2
    else 0
  }

  function DataLength(kind: char, length: byte): nat {
    var n := length - AddressLength(kind) - 1;
    if kind == '5' || n < 0 then 0 else n
  }

  function SkipToS(s: string, p: nat): (q: nat)
    decreases |s| - p
  {
    if p >= |s| then p else if s[p] == 'S' then p + 1 else SkipToS(s, p + 1)
  }

  /** srec_decode. */
  function Decode(s: string): Decoded {
    var p := SkipToS(s, 0);
    DecodeFrom(CharAt(s, p), Hex2Bin(s, p + 1), s, p + 3)
  }

  /** A record of this type and length, if there is any. */
  function DecodeFrom(kind: char, length: Option<byte>, s: string, q: nat): Decoded {
    if kind == '\0' then Empty
    else if length == None then NoRecord
    else DecodeTyped(kind, length.value, s, q)
  }

  /** Its address, data and checksum stand from position q on. */
  function DecodeTyped(kind: char, length: byte, s: string, q: nat): Decoded {
    if AddressLength(kind) == 0 then BadType
    else
      match ReadBytes(s, q, AddressLength(kind) + DataLength(kind, length) + 1)
      case None => NoRecord
      case Some(fields) => DecodeFields(kind, length, fields)
  }

  function DecodeFields(kind: char, length: byte, fields: seq<byte>): Decoded
    requires AddressLength(kind) > 0 && |fields| == AddressLength(kind) + DataLength(kind, length) + 1
  {
    var a, n := AddressLength(kind), DataLength(kind, length);
    if fields[a + n] != Complement(length + Sum(fields, a + n)) then BadChecksum
    else Good(kind as nat - '0' as nat, Number(fields, a) % 0x1_0000_0000, fields[a..a + n])
  }

  // ------------------------------------------------------- sums and numbers

  lemma {:induction false} SumConcat(a: seq<byte>, b: seq<byte>, n: nat)
    requires n <= |b|
    ensures Sum(a + b, |a| + n) == Sum(a, |a|) + Sum(b, n)
  {
    if n == 0 {
      SumPrefix(a, b, |a|);
    } else {
      SumConcat(a, b, n - 1);
    }
  }

  lemma {:induction false} SumPrefix(a: seq<byte>, b: seq<byte>, n: nat)
    requires n <= |a|
    ensures Sum(a + b, n) == Sum(a, n)
  {
    if n > 0 {
      SumPrefix(a, b, n - 1);
    }
  }

  lemma {:induction false} NumberPrefix(a: seq<byte>, b: seq<byte>, n: nat)
    requires n <= |a|
    ensures Number(a + b, n) == Number(a, n)
  {
    if n > 0 {
      NumberPrefix(a, b, n - 1);
    }
  }

  lemma {:induction false} HexConcat(a: seq<byte>, b: seq<byte>, n: nat)
    requires n <= |b|
    ensures HexText(a + b, |a| + n) == HexText(a, |a|) + HexText(b, n)
  {
    if n == 0 {
      HexPrefix(a, b, |a|);
      assert HexText(a, |a|) + "" == HexText(a, |a|);
    } else {
      HexConcat(a, b, n - 1);
      assert HexText(a, |a|) + HexText(b, n) == (HexText(a, |a|) + HexText(b, n - 1)) + Hex2(b[n - 1]);
    }
  }

  lemma {:induction false} HexPrefix(a: seq<byte>, b: seq<byte>, n: nat)
    requires n <= |a|
    ensures HexText(a + b, n) == HexText(a, n)
  {
    if n > 0 {
      HexPrefix(a, b, n - 1);
    }
  }

  lemma ByteSplit(a: nat)
    ensures a / 0x100 * 0x100 + a % 0x100 == a
  {
  }

  lemma AddressReads(a: u32)
    ensures Number(AddressBytes(a), 4) == a
  {
    var b := AddressBytes(a);
    NumberOf4(b);
    ByteSplit(a);
    ByteSplit(a / 0x100);
    ByteSplit(a / 0x1_0000);
    assert a / 0x100 / 0x100 == a / 0x1_0000 && a / 0x1_0000 / 0x100 == a / 0x100_0000;
  }

  lemma NumberOf4(b: seq<byte>)
    requires |b| == 4
    ensures Number(b, 4) == ((b[0] as int * 0x100 + b[1]) * 0x100 + b[2]) * 0x100 + b[3]
    ensures Sum(b, 4) == b[0] as int + b[1] + b[2] + b[3]
  {
    assert Number(b, 1) == b[0] && Sum(b, 1) == b[0];
    assert Number(b, 2) == b[0] as int * 0x100 + b[1] && Sum(b, 2) == b[0] as int + b[1];
    assert Number(b, 3) == Number(b, 2) * 0x100 + b[2] && Sum(b, 3) == Sum(b, 2) + b[2];
  }

  // -------------------------------------------------------------- reading back

  lemma {:induction false} HexTextAt(bytes: seq<byte>, n: nat, k: nat)
    requires k < n <= |bytes|
    ensures HexText(bytes, n)[2 * k] == HexDigit(bytes[k] / 16)
    ensures HexText(bytes, n)[2 * k + 1] == HexDigit(bytes[k] % 16)
  {
    if k < n - 1 {
      HexTextAt(bytes, n - 1, k);
    }
  }

  lemma Hex2Reads(s: string, p: nat, b: byte)
    requires CharAt(s, p) == HexDigit(b / 16) && CharAt(s, p + 1) == HexDigit(b % 16)
    ensures Hex2Bin(s, p) == Some(b)
  {
    assert Hex1Bin(CharAt(s, p)) == Some(b / 16) && Hex1Bin(CharAt(s, p + 1)) == Some(b % 16);
  }

  /** From position p on, s holds these bytes in hexadecimal. */
  ghost predicate Spells(s: string, p: nat, bytes: seq<byte>) {
    forall k :: 0 <= k < |bytes| ==> Hex2Bin(s, p + 2 * k) == Some(bytes[k])
  }

  lemma LineSpells(bytes: seq<byte>)
    ensures Spells(Line(bytes), 2, bytes)
  {
    var s, text := Line(bytes), HexText(bytes, |bytes|);
    forall k | 0 <= k < |bytes|
      ensures Hex2Bin(s, 2 + 2 * k) == Some(bytes[k])
    {
      HexTextAt(bytes, |bytes|, k);
      assert s[2 + 2 * k] == text[2 * k];
      assert s[2 + 2 * k + 1] == text[2 * k + 1];
      Hex2Reads(s, 2 + 2 * k, bytes[k]);
    }
  }

  lemma {:induction false} SpelledReads(s: string, p: nat, bytes: seq<byte>, n: nat)
    requires Spells(s, p, bytes) && n <= |bytes|
    ensures ReadBytes(s, p, n) == Some(bytes[..n])
  {
    if n > 0 {
      SpelledReads(s, p, bytes, n - 1);
      assert Hex2Bin(s, p + 2 * (n - 1)) == Some(bytes[n - 1]);
      assert bytes[..n] == bytes[..n - 1] + [bytes[n - 1]];
    }
  }

  lemma SpellsTail(s: string, p: nat, first: byte, rest: seq<byte>)
    requires Spells(s, p, [first] + rest)
    ensures Hex2Bin(s, p) == Some(first) && Spells(s, p + 2, rest)
  {
    var bytes := [first] + rest;
    assert Hex2Bin(s, p + 2 * 0) == Some(bytes[0]);
    forall k | 0 <= k < |rest|
      ensures Hex2Bin(s, p + 2 + 2 * k) == Some(rest[k])
    {
      assert Hex2Bin(s, p + 2 * (k + 1)) == Some(bytes[k + 1]);
    }
  }

  /** Decoding a string that begins with S, a type, a length and the fields. */
  lemma DecodeSpelled(s: string, kind: char, length: byte, fields: seq<byte>)
    requires |s| > 2 && s[0] == 'S' && s[1] == kind && AddressLength(kind) > 0
    requires |fields| == AddressLength(kind) + DataLength(kind, length) + 1
    requires Spells(s, 2, [length] + fields)
    ensures Decode(s) == DecodeFields(kind, length, fields)
  {
    SpellsTail(s, 2, length, fields);
    FieldsSpelled(s, 4, fields);
    assert SkipToS(s, 0) == 1;
  }

  lemma FieldsSpelled(s: string, p: nat, fields: seq<byte>)
    requires Spells(s, p, fields)
    ensures ReadBytes(s, p, |fields|) == Some(fields)
  {
    SpelledReads(s, p, fields, |fields|);
    assert fields[..|fields|] == fields;
  }

  lemma CheckedSplit(length: byte, front: seq<byte>)
    ensures Checked([length] + front) == [length] + (front + [Complement(length + Sum(front, |front|))])
  {
    SumConcat([length], front, |front|);
    assert Sum([length], 1) == length;
  }

  lemma FieldsRead(kind: char, address: seq<byte>, data: seq<byte>, length: byte, check: byte)
    requires |address| == AddressLength(kind) > 0 && kind != '5' && length == |address| + |data| + 1
    requires check == Complement(length + Sum(address + data, |address| + |data|))
    ensures DecodeFields(kind, length, address + data + [check]) ==
      Good(kind as nat - '0' as nat, Number(address, |address|) % 0x1_0000_0000, data)
  {
    var front := address + data;
    SumPrefix(front, [check], |front|);
    NumberPrefix(front, [check], |address|);
    NumberPrefix(address, data, |address|);
    assert (front + [check])[|address|..|front|] == data;
  }

  ghost predicate DecodesTo(s: string, d: Decoded) {
    Decode(s) == d
  }

  /** A record of any type with a good checksum decodes to what it says. */
  lemma SpelledReadsBack(s: string, kind: char, address: seq<byte>, data: seq<byte>, length: byte, check: byte)
    requires |s| > 2 && s[0] == 'S' && s[1] == kind
    requires |address| == AddressLength(kind) > 0 && kind != '5' && length == |address| + |data| + 1
    requires check == Complement(length + Sum(address + data, |address| + |data|))
    requires Spells(s, 2, [length] + (address + data + [check]))
    ensures DecodesTo(s, Good(kind as nat - '0' as nat, Number(address, |address|) % 0x1_0000_0000, data))
  {
    DecodeSpelled(s, kind, length, address + data + [check]);
    FieldsRead(kind, address, data, length, check);
  }

  lemma LineReadsBack(line: string, n: u32, address: seq<byte>, data: seq<byte>)
    requires |address| == 4 && |data| <= 250 && Number(address, 4) == n
    requires line == Line(Checked([4 + |data| + 1] + (address + data)))
    ensures DecodesTo(line, Good(3, n, data))
  {
    var length: byte, front := 4 + |data| + 1, address + data;
    var check := Complement(length + Sum(front, |front|));
    LineHolds(line, length, front);
    FrontReadsBack(line, n, address, data, front, length, check);
  }

  lemma FrontReadsBack(
      line: string, n: u32, address: seq<byte>, data: seq<byte>, front: seq<byte>, length: byte, check: byte)
    requires |line| > 2 && line[0] == 'S' && line[1] == '3'
    requires |address| == 4 && Number(address, 4) == n && length == 4 + |data| + 1 && front == address + data
    requires check == Complement(length + Sum(front, |front|)) && Spells(line, 2, [length] + (front + [check]))
    ensures DecodesTo(line, Good(3, n, data))
  {
    assert n as int % 0x1_0000_0000 == n;
    assert |front| == |address| + |data|;
    SpelledReadsBack(line, '3', address, data, length, check);
  }

  lemma LineHolds(line: string, length: byte, front: seq<byte>)
    requires line == Line(Checked([length] + front))
    ensures |line| > 2 && line[0] == 'S' && line[1] == '3'
    ensures Spells(line, 2, [length] + (front + [Complement(length + Sum(front, |front|))]))
  {
    CheckedSplit(length, front);
    LineSpells(Checked([length] + front));
  }

  /** Every record that is sent decodes to its address and its data. */
  lemma RecordReadsBack(b: Block)
    requires |b.data| <= 250
    ensures DecodesTo(Record(b), Good(3, b.address, b.data))
  {
    AddressReads(b.address);
    LineReadsBack(Record(b), b.address, AddressBytes(b.address), b.data);
  }

  lemma StartSpells()
    ensures Spells(START, 2, [3] + ([0, 0] + [] + [0xFC]))
  {
    assert [3] + ([0, 0] + [] + [0xFC]) == [3, 0, 0, 0xFC];
  }

  lemma FinishSpells()
    ensures Spells(FINISH, 2, [5] + ([0, 0, 0, 0] + [] + [0xFA]))
  {
    assert [5] + ([0, 0, 0, 0] + [] + [0xFA]) == [5, 0, 0, 0, 0, 0xFA];
  }

  lemma {:induction false} ZeroBytes(bytes: seq<byte>, n: nat)
    requires n <= |bytes| && forall k :: 0 <= k < |bytes| ==> bytes[k] == 0
    ensures Sum(bytes, n) == 0 && Number(bytes, n) == 0
  {
    if n > 0 {
      ZeroBytes(bytes, n - 1);
    }
  }

  lemma StartReads()
    ensures DecodesTo(START, Good(0, 0, []))
  {
    var zeros: seq<byte> := [0, 0];
    StartSpells();
    assert zeros + [] == zeros;
    ZeroBytes(zeros, 2);
    SpelledReadsBack(START, '0', zeros, [], 3, 0xFC);
  }

  lemma FinishReads()
    ensures DecodesTo(FINISH, Good(7, 0, []))
  {
    var zeros: seq<byte> := [0, 0, 0, 0];
    FinishSpells();
    assert zeros + [] == zeros;
    ZeroBytes(zeros, 4);
    SpelledReadsBack(FINISH, '7', zeros, [], 5, 0xFA);
  }

  // ------------------------------------------------------------- the checksum

  lemma ComplementFills(sum: nat)
    ensures (sum + Complement(sum)) % 0x100 == 0xFF
  {
    var q := sum / 0x100;
    assert sum + Complement(sum) == 0x100 * q + 0xFF;
  }

  /** All bytes of a record together, checksum included, give 0xFF in 8 bits. */
  lemma RecordSums(b: Block)
    requires |b.data| <= 250
    ensures var bytes := RecordBytes(b);
      Sum(bytes, |bytes|) % 0x100 == 0xFF
  {
    var body := [4 + |b.data| + 1] + (AddressBytes(b.address) + b.data);
    var check := Complement(Sum(body, |body|));
    SumConcat(body, [check], 1);
    assert Sum([check], 1) == check;
    ComplementFills(Sum(body, |body|));
  }

  /** The decoder accepts exactly the records that do so. */
  lemma AcceptedSums(kind: char, length: byte, fields: seq<byte>)
    requires AddressLength(kind) > 0 && |fields| == AddressLength(kind) + DataLength(kind, length) + 1
    ensures DecodeFields(kind, length, fields).Good? <==> (length + Sum(fields, |fields|)) % 0x100 == 0xFF
  {
    var last := |fields| - 1;
    var sum := length + Sum(fields, last);
    var q := (sum + fields[last]) / 0x100;
    assert Sum(fields, |fields|) == Sum(fields, last) + fields[last];
    assert sum + fields[last] == 0x100 * q + (sum + fields[last]) % 0x100;
    assert sum == 0x100 * (sum / 0x100) + sum % 0x100;
  }

  lemma {:induction false} SumUpdate(bytes: seq<byte>, i: nat, x: byte, n: nat)
    requires i < |bytes| && n <= |bytes|
    ensures Sum(bytes[i := x], n) == Sum(bytes, n) + if i < n then x - bytes[i] else 0
  {
    if n > 0 {
      SumUpdate(bytes, i, x, n - 1);
    }
  }

  /** A record with one wrong byte, wherever it is behind the length, is refused. */
  lemma ByteErrorIsSeen(kind: char, length: byte, fields: seq<byte>, i: nat, x: byte)
    requires AddressLength(kind) > 0 && |fields| == AddressLength(kind) + DataLength(kind, length) + 1
    requires DecodeFields(kind, length, fields).Good? && i < |fields| && x != fields[i]
    ensures DecodeFields(kind, length, fields[i := x]) == BadChecksum
  {
    AcceptedSums(kind, length, fields);
    AcceptedSums(kind, length, fields[i := x]);
    SumUpdate(fields, i, x, |fields|);
    DiffersIn8Bits(length + Sum(fields, |fields|), length + Sum(fields[i := x], |fields|));
  }

  lemma DiffersIn8Bits(a: nat, b: nat)
    requires a != b && -0x100 < a - b < 0x100
    ensures a % 0x100 != b % 0x100
  {
    assert a == 0x100 * (a / 0x100) + a % 0x100 && b == 0x100 * (b / 0x100) + b % 0x100;
  }

  /** The digits are those of the table in the code. */
  lemma HexDigits(v: nat)
    requires v < 16
    ensures HexDigit(v) == "0123456789ABCDEF"[v]
    ensures Hex1Bin("0123456789ABCDEF"[v]) == Hex1Bin("0123456789abcdef"[v]) == Some(v)
  {
  }

  /** Nothing else is a hexadecimal digit. */
  lemma OnlyHexDigits(c: char)
    ensures Hex1Bin(c).Some? <==> c in "0123456789abcdefABCDEF"
  {
    if Hex1Bin(c).Some? {
      assert c == "0123456789abcdef"[Hex1Bin(c).value] || c == "0123456789ABCDEF"[Hex1Bin(c).value];
    }
  }

  /** How many data bytes an accepted record holds: a count record none, whatever its length says,
      any other one what its length leaves behind the address and the checksum. */
  lemma DataHeld(kind: char, length: byte, fields: seq<byte>)
    requires AddressLength(kind) > 0 && |fields| == AddressLength(kind) + DataLength(kind, length) + 1
    requires DecodeFields(kind, length, fields).Good?
    ensures var held := |DecodeFields(kind, length, fields).data|;
      held == if kind == '5' || length <= AddressLength(kind) then 0 else length - AddressLength(kind) - 1
  {
  }

  lemma {:induction false} SkipShift(junk: string, s: string, p: nat)
    requires 'S' !in junk && p <= |junk|
    ensures SkipToS(junk + s, p) == |junk| + SkipToS(s, 0)
    decreases |junk| - p
  {
    if p < |junk| {
      assert (junk + s)[p] == junk[p];
      SkipShift(junk, s, p + 1);
    } else {
      SkipOn(junk, s, 0);
    }
  }

  lemma {:induction false} SkipOn(junk: string, s: string, p: nat)
    requires p <= |s|
    ensures SkipToS(junk + s, |junk| + p) == |junk| + SkipToS(s, p)
    decreases |s| - p
  {
    if p < |s| {
      assert (junk + s)[|junk| + p] == s[p];
      SkipOn(junk, s, p + 1);
    }
  }

  lemma {:induction false} ReadShift(junk: string, s: string, p: nat, n: nat)
    ensures ReadBytes(junk + s, |junk| + p, n) == ReadBytes(s, p, n)
  {
    if n > 0 {
      ReadShift(junk, s, p, n - 1);
      ByteShift(junk, s, p + 2 * (n - 1));
    }
  }

  lemma CharShift(junk: string, s: string, p: nat)
    ensures CharAt(junk + s, |junk| + p) == CharAt(s, p)
  {
  }

  lemma ByteShift(junk: string, s: string, p: nat)
    ensures Hex2Bin(junk + s, |junk| + p) == Hex2Bin(s, p)
  {
    CharShift(junk, s, p);
    CharShift(junk, s, p + 1);
  }

  lemma TypedShift(kind: char, length: byte, junk: string, s: string, q: nat)
    ensures DecodeTyped(kind, length, junk + s, |junk| + q) == DecodeTyped(kind, length, s, q)
  {
    if AddressLength(kind) > 0 {
      ReadShift(junk, s, q, AddressLength(kind) + DataLength(kind, length) + 1);
    }
  }

  lemma FromShift(kind: char, length: Option<byte>, junk: string, s: string, q: nat)
    ensures DecodeFrom(kind, length, junk + s, |junk| + q) == DecodeFrom(kind, length, s, q)
  {
    if length.Some? {
      TypedShift(kind, length.value, junk, s, q);
    }
  }

  /** Whatever stands in front of the first `S` of a line does not matter. */
  lemma JunkSkipped(junk: string, s: string)
    requires 'S' !in junk
    ensures Decode(junk + s) == Decode(s)
  {
    var p := SkipToS(s, 0);
    SkipShift(junk, s, 0);
    CharShift(junk, s, p);
    ByteShift(junk, s, p + 1);
    FromShift(CharAt(s, p), Hex2Bin(s, p + 1), junk, s, p + 3);
  }

  /** A line without an `S`, or with nothing behind it, is an empty one. */
  lemma EmptyLine(junk: string)
    requires 'S' !in junk
    ensures Decode(junk) == Empty && Decode(junk + "S") == Empty
  {
    JunkSkipped(junk, "");
    JunkSkipped(junk, "S");
    assert junk + "" == junk;
  }

  /** A record as it is on the line. */
  lemma KnownRecord()
    ensures Record(Block(0x1234_5678, [0xAB])) == "S30612345678AB3A\n"
  {
    var known: seq<byte> := [6, 0x12, 0x34, 0x56, 0x78, 0xAB];
    KnownBody(known);
    KnownSum(known);
    KnownText(known);
    HexLast(known, 0x3A);
    KnownLine(known + [0x3A], HexText(known + [0x3A], 7));
  }

  lemma KnownLine(bytes: seq<byte>, text: string)
    requires |bytes| == 7 && HexText(bytes, 7) == text == "0612345678AB" + Hex2(0x3A)
    ensures Line(bytes) == "S30612345678AB3A\n"
  {
  }

  lemma KnownBody(known: seq<byte>)
    requires known == [6, 0x12, 0x34, 0x56, 0x78, 0xAB]
    ensures RecordBytes(Block(0x1234_5678, [0xAB])) == Checked(known)
  {
    assert AddressBytes(0x1234_5678) == [0x12, 0x34, 0x56, 0x78];
    assert [6] + (AddressBytes(0x1234_5678) + [0xAB]) == known;
  }

  lemma KnownSum(known: seq<byte>)
    requires known == [6, 0x12, 0x34, 0x56, 0x78, 0xAB]
    ensures Sum(known, 6) == 453 && Checked(known) == known + [0x3A]
  {
    assert Sum(known, 1) == 6;
    assert Sum(known, 2) == 24;
    assert Sum(known, 3) == 76;
    assert Sum(known, 4) == 162;
    assert Sum(known, 5) == 282;
  }

  lemma KnownText(known: seq<byte>)
    requires known == [6, 0x12, 0x34, 0x56, 0x78, 0xAB]
    ensures HexText(known, 6) == "0612345678AB"
  {
    assert HexText(known, 1) == "06";
    assert HexText(known, 2) == "0612";
    assert HexText(known, 3) == "061234";
    assert HexText(known, 4) == "06123456";
    assert HexText(known, 5) == "0612345678";
  }

  /** The record types have an address of two, three or four bytes; 4 and 6 are none of them. */
  lemma AddressLengths(kind: char)
    ensures AddressLength(kind) == 2 <==> kind in "0159"
    ensures AddressLength(kind) == 3 <==> kind in "28"
    ensures AddressLength(kind) == 4 <==> kind in "37"
    ensures AddressLength(kind) == 0 <==> kind !in "01235789"
  {
  }

  // ------------------------------------------------------------ whole uploads

  /** Bytes at consecutive addresses. */
  function Placed(b: Block): seq<(u32, byte)> {
    seq(|b.data|, i requires 0 <= i < |b.data| => ((b.address + i) % 0x1_0000_0000, b.data[i]))
  }

  /** What the records from number k on store, up to the end record; an empty line is
      passed over. None for a record in error, and for a download without an end. */
  function Stores(records: seq<Decoded>, k: nat): Option<seq<(u32, byte)>>
    requires k <= |records|
    decreases |records| - k
  {
    if k == |records| then None
    else
      match records[k]
      case Good(kind, address, data) =>
        if kind >= 7 then Some([])
        else Then(if 1 <= kind <= 3 then Placed(Block(address, data)) else [], Stores(records, k + 1))
      case Empty => Stores(records, k + 1)
      case _ => None
  }

  function Then(first: seq<(u32, byte)>, rest: Option<seq<(u32, byte)>>): Option<seq<(u32, byte)>> {
    if rest == None then None else Some(first + rest.value)
  }

  function DecodeAll(lines: seq<string>): seq<Decoded> {
    seq(|lines|, k requires 0 <= k < |lines| => Decode(lines[k]))
  }

  function Reports(blocks: seq<Block>): seq<Decoded> {
    seq(|blocks|, k requires 0 <= k < |blocks| => Good(3, blocks[k].address, blocks[k].data))
  }

  lemma UploadLine(blocks: seq<Block>, k: nat)
    requires k < |blocks| + 2 && forall i :: 0 <= i < |blocks| ==> |blocks[i].data| <= BYTES_PER_RECORD
    ensures DecodesTo(([START] + Records(blocks) + [FINISH])[k],
      ([Good(0, 0, [])] + Reports(blocks) + [Good(7, 0, [])])[k])
  {
    Between(START, Records(blocks), FINISH, k);
    Between(Good(0, 0, []), Reports(blocks), Good(7, 0, []), k);
    if k == 0 {
      StartReads();
    } else if k == |blocks| + 1 {
      FinishReads();
    } else {
      RecordReadsBack(blocks[k - 1]);
    }
  }

  lemma Between<T>(first: T, middle: seq<T>, last: T, k: nat)
    requires k < |middle| + 2
    ensures ([first] + middle + [last])[k] ==
      if k == 0 then first else if k == |middle| + 1 then last else middle[k - 1]
  {
  }

  lemma UploadDecodes(memory: u32 -> byte, address: u32, count: nat)
    ensures DecodeAll(Upload(memory, address, count)) ==
      [Good(0, 0, [])] + Reports(Blocks(memory, address, count)) + [Good(7, 0, [])]
  {
    var blocks := Blocks(memory, address, count);
    var lines, all := Upload(memory, address, count), [Good(0, 0, [])] + Reports(blocks) + [Good(7, 0, [])];
    forall k | 0 <= k < |lines|
      ensures DecodeAll(lines)[k] == all[k]
    {
      UploadLine(blocks, k);
    }
  }

  /** What a list of blocks stores. */
  function PlacedAll(blocks: seq<Block>): seq<(u32, byte)> {
    if blocks == [] then [] else Placed(blocks[0]) + PlacedAll(blocks[1..])
  }

  lemma {:induction false} ReportsStore(before: seq<Decoded>, blocks: seq<Block>)
    ensures Stores(before + Reports(blocks) + [Good(7, 0, [])], |before|) == Some(PlacedAll(blocks))
    decreases |blocks|
  {
    var records := before + Reports(blocks) + [Good(7, 0, [])];
    if blocks == [] {
      assert records[|before|] == Good(7, 0, []);
    } else {
      var first := Good(3, blocks[0].address, blocks[0].data);
      ReportsStore(before + [first], blocks[1..]);
      assert records == (before + [first]) + Reports(blocks[1..]) + [Good(7, 0, [])];
      assert records[|before|] == first;
    }
  }

  lemma {:induction false} BlocksCover(memory: u32 -> byte, address: u32, count: nat)
    ensures PlacedAll(Blocks(memory, address, count)) == Placed(Block(address, Bytes(memory, address, count)))
    decreases count
  {
    if count > 0 {
      var n := if count < BYTES_PER_RECORD then count else BYTES_PER_RECORD;
      BlocksCover(memory, (address + n) % 0x1_0000_0000, count - n);
      PlacedSplit(memory, address, n, count);
    }
  }

  lemma AddressWraps(address: u32, n: nat, i: nat)
    ensures ((address + n) % 0x1_0000_0000 + i) % 0x1_0000_0000 == (address + (n + i)) % 0x1_0000_0000
  {
  }

  lemma PlacedSplit(memory: u32 -> byte, address: u32, n: nat, count: nat)
    requires n <= count
    ensures var next := (address + n) % 0x1_0000_0000;
      Placed(Block(address, Bytes(memory, address, count))) ==
      Placed(Block(address, Bytes(memory, address, n))) + Placed(Block(next, Bytes(memory, next, count - n)))
  {
    var next := (address + n) % 0x1_0000_0000;
    var all := Placed(Block(address, Bytes(memory, address, count)));
    var front := Placed(Block(address, Bytes(memory, address, n)));
    var back := Placed(Block(next, Bytes(memory, next, count - n)));
    forall i | 0 <= i < count
      ensures all[i] == (front + back)[i]
    {
      if i >= n {
        AddressWraps(address, n, i - n);
      }
    }
  }

  /** Main theorem: decoding an upload stores exactly the uploaded memory, each byte
      at its own address. */
  lemma UploadReadsBack(memory: u32 -> byte, address: u32, count: nat)
    ensures Stores(DecodeAll(Upload(memory, address, count)), 0) ==
      Some(Placed(Block(address, Bytes(memory, address, count))))
  {
    UploadDecodes(memory, address, count);
    var blocks := Blocks(memory, address, count);
    ReportsStore([Good(0, 0, [])], blocks);
    BlocksCover(memory, address, count);
    StartStores([Good(0, 0, [])] + Reports(blocks) + [Good(7, 0, [])]);
  }

  lemma StartStores(records: seq<Decoded>)
    requires |records| > 0 && records[0] == Good(0, 0, [])
    ensures Stores(records, 0) == Stores(records, 1)
  {
    var rest := Stores(records, 1);
    assert Stores(records, 0) == Then([], rest);
    assert rest.Some? ==> [] + rest.value == rest.value;
  }

  // ------------------------------------------------------------- save_serial

  /** The bytes collected since the last record. */
  ghost predicate Collected(memory: u32 -> byte, address: u32, n: nat, data: string, checksum: nat) {
    data == HexText(Bytes(memory, address, n), n) && checksum == Sum(Bytes(memory, address, n), n)
  }

  /** What is out so far and what the memory from `address` on still gives make up
      the whole. */
  ghost predicate Sending(whole: seq<string>, out: seq<string>, memory: u32 -> byte, address: u32, rest: nat) {
    whole == out + Records(Blocks(memory, address, rest))
  }

  /** No hangup after any of the first n records. */
  ghost predicate Undisturbed(hangup: nat -> bool, n: nat) {
    forall i: nat :: i < n ==> !hangup(i)
  }

  /** All records went out, or those up to the first one after which the console has
      hung up. */
  ghost predicate Delivered(rc: int, out: seq<string>, all: seq<string>, hangup: nat -> bool) {
    || (rc == 0 && out == all && Undisturbed(hangup, |out|))
    || (rc == -1 && 0 < |out| && out <= all && Undisturbed(hangup, |out| - 1) && hangup(|out| - 1))
  }

  /** save_serial; `hangup` answers the question of write_record after each record. */
  method SaveSerial(memory: u32 -> byte, address: u32, count: u32, hangup: nat -> bool)
    returns (rc: int, out: seq<string>)
    ensures Delivered(rc, out, Upload(memory, address, count), hangup)
  {
    rc, out := SendRecords(memory, address, count, hangup);
    if rc == 0 {
      out := out + [FINISH];
      rc := if hangup(|out| - 1) then -1 else 0;
    }
  }

  /** The header and the data records. */
  method SendRecords(memory: u32 -> byte, address0: u32, count0: u32, hangup: nat -> bool)
    returns (rc: int, out: seq<string>)
    ensures Delivered(rc, out, [START] + Records(Blocks(memory, address0, count0)), hangup)
  {
    out := [START];
    if hangup(0) {
      return -1, out;
    }
    ghost var whole := out + Records(Blocks(memory, address0, count0));
    rc, out := SendData(memory, address0, count0, out, hangup, whole);
  }

  /** The loop: one byte per turn, one record when 16 bytes are there or no more are to come. */
  method SendData(memory: u32 -> byte, address0: u32, count0: u32, out0: seq<string>, hangup: nat -> bool,
                  ghost whole: seq<string>)
    returns (rc: int, out: seq<string>)
    requires Sending(whole, out0, memory, address0, count0) && Undisturbed(hangup, |out0|)
    ensures Delivered(rc, out, whole, hangup)
  {
    var address: u32, count: u32 := address0, count0;
    var reclen: nat, checksum: nat, data := 0, 0, "";
    NothingCollected(memory, address);
    out := out0;
    var more, ok := true, true;
    while more
      invariant reclen < BYTES_PER_RECORD && (count == 0 ==> reclen == 0) && (!more ==> count == 0)
      invariant Collected(memory, address, reclen, data, checksum)
      invariant Sending(whole, out, memory, address, reclen + count) && Undisturbed(hangup, |out|)
      decreases count, more
    {
      ok, out, address, reclen, data, checksum :=
        SendByte(memory, address, reclen, data, checksum, out, hangup, whole, count);
      if !ok {
        return -1, out;
      }
      count := if count > 0 then count - 1 else 0;
      more := count > 0;
    }
    AllSent(whole, out, memory, address);
    rc := 0;
  }

  /** One turn of the loop. */
  method SendByte(memory: u32 -> byte, address0: u32, reclen0: nat, data0: string, checksum0: nat, out0: seq<string>,
                  hangup: nat -> bool, ghost whole: seq<string>, count: u32)
    returns (ok: bool, out: seq<string>, address: u32, reclen: nat, data: string, checksum: nat)
    requires reclen0 < BYTES_PER_RECORD && (count == 0 ==> reclen0 == 0)
    requires Collected(memory, address0, reclen0, data0, checksum0) && Undisturbed(hangup, |out0|)
    requires Sending(whole, out0, memory, address0, reclen0 + count)
    ensures !ok ==> Delivered(-1, out, whole, hangup)
    ensures ok ==>
      var left := if count > 0 then count - 1 else 0;
      && reclen < BYTES_PER_RECORD && (left == 0 ==> reclen == 0)
      && Collected(memory, address, reclen, data, checksum) && Undisturbed(hangup, |out|)
      && Sending(whole, out, memory, address, reclen + left)
  {
    address, reclen, data, checksum := address0, reclen0, data0, checksum0;
    var left: nat := count;
    if count > 0 {
      data, checksum := TakeByte(memory, address, reclen, data, checksum);
      reclen, left := reclen + 1, count - 1;
    }
    ok, out, address, reclen, data, checksum :=
      DumpWhenDue(memory, address, reclen, data, checksum, out0, hangup, whole, left);
  }

  /** A full record, and what is left over at the end, is sent at once. */
  method DumpWhenDue(memory: u32 -> byte, address0: u32, reclen0: nat, data0: string, checksum0: nat,
                     out0: seq<string>, hangup: nat -> bool, ghost whole: seq<string>, left: nat)
    returns (ok: bool, out: seq<string>, address: u32, reclen: nat, data: string, checksum: nat)
    requires reclen0 <= BYTES_PER_RECORD
    requires Collected(memory, address0, reclen0, data0, checksum0) && Undisturbed(hangup, |out0|)
    requires Sending(whole, out0, memory, address0, reclen0 + left)
    ensures !ok ==> Delivered(-1, out, whole, hangup)
    ensures ok ==>
      && reclen < BYTES_PER_RECORD && (left == 0 ==> reclen == 0)
      && Collected(memory, address, reclen, data, checksum) && Undisturbed(hangup, |out|)
      && Sending(whole, out, memory, address, reclen + left)
  {
    ok, out, address, reclen, data, checksum := true, out0, address0, reclen0, data0, checksum0;
    if reclen == BYTES_PER_RECORD || left == 0 {
      ok, out, address := DumpRecord(memory, address, reclen, data, checksum, out, hangup, whole, left);
      reclen, checksum, data := 0, 0, "";
      NothingCollected(memory, address);
    }
  }

  method TakeByte(memory: u32 -> byte, address: u32, reclen: nat, data0: string, checksum0: nat)
    returns (data: string, checksum: nat)
    requires Collected(memory, address, reclen, data0, checksum0)
    ensures Collected(memory, address, reclen + 1, data, checksum)
  {
    var c := memory((address + reclen) % 0x1_0000_0000);
    BytesNext(memory, address, reclen);
    data, checksum := data0 + Hex2(c), checksum0 + c;
  }

  lemma NothingCollected(memory: u32 -> byte, address: u32)
    ensures Collected(memory, address, 0, "", 0)
  {
  }

  lemma AllSent(whole: seq<string>, out: seq<string>, memory: u32 -> byte, address: u32)
    requires Sending(whole, out, memory, address, 0)
    ensures out == whole
  {
    assert Blocks(memory, address, 0) == [] && out + [] == out;
  }

  /** The record of what was collected, if anything was, and the next address. */
  method DumpRecord(memory: u32 -> byte, address0: u32, reclen: nat, data: string, checksum: nat, out0: seq<string>,
                    hangup: nat -> bool, ghost whole: seq<string>, ghost count: nat)
    returns (ok: bool, out: seq<string>, address: u32)
    requires reclen <= BYTES_PER_RECORD && (reclen == BYTES_PER_RECORD || count == 0)
    requires Collected(memory, address0, reclen, data, checksum) && Undisturbed(hangup, |out0|)
    requires Sending(whole, out0, memory, address0, reclen + count)
    ensures ok ==> Sending(whole, out, memory, address, count) && Undisturbed(hangup, |out|)
    ensures !ok ==> Delivered(-1, out, whole, hangup)
  {
    ok, out, address := true, out0, (address0 + reclen) % 0x1_0000_0000;
    if reclen > 0 {
      var record := BuildRecord(address0, data, checksum, Block(address0, Bytes(memory, address0, reclen)));
      SendingStep(whole, out0, memory, address0, reclen, count, record);
      ok, out := !hangup(|out0|), out0 + [record];
    }
  }

  lemma SendingStep(whole: seq<string>, out: seq<string>, memory: u32 -> byte, address: u32, n: nat, rest: nat,
                    record: string)
    requires 0 < n <= BYTES_PER_RECORD && (n == BYTES_PER_RECORD || rest == 0)
    requires Sending(whole, out, memory, address, n + rest)
    requires record == Record(Block(address, Bytes(memory, address, n)))
    ensures Sending(whole, out + [record], memory, (address + n) % 0x1_0000_0000, rest)
  {
    NextRecord(memory, address, n, n + rest);
    Regrouped(out, record, Records(Blocks(memory, (address + n) % 0x1_0000_0000, rest)));
  }

  lemma Regrouped(out: seq<string>, record: string, rest: seq<string>)
    ensures out + ([record] + rest) == (out + [record]) + rest
  {
  }

  lemma NextRecord(memory: u32 -> byte, address: u32, n: nat, count: nat)
    requires 0 < n <= count && n == if count < BYTES_PER_RECORD then count else BYTES_PER_RECORD
    ensures Records(Blocks(memory, address, count)) ==
      [Record(Block(address, Bytes(memory, address, n)))] +
      Records(Blocks(memory, (address + n) % 0x1_0000_0000, count - n))
  {
    var b, rest := Block(address, Bytes(memory, address, n)), Blocks(memory, (address + n) % 0x1_0000_0000, count - n);
    assert Blocks(memory, address, count) == [b] + rest;
    RecordsOf(b, rest);
  }

  lemma RecordsOf(b: Block, rest: seq<Block>)
    requires |b.data| <= BYTES_PER_RECORD && forall k :: 0 <= k < |rest| ==> |rest[k].data| <= BYTES_PER_RECORD
    ensures Records([b] + rest) == [Record(b)] + Records(rest)
  {
  }

  /** One record in the buffer: the checksum goes on over the length and the address. */
  method BuildRecord(address: u32, text: string, checksum0: nat, ghost b: Block) returns (record: string)
    requires b.address == address && 0 < |b.data| <= BYTES_PER_RECORD
    requires text == HexText(b.data, |b.data|) && checksum0 == Sum(b.data, |b.data|)
    ensures record == Record(b)
  {
    var length: byte := 4 + |text| / 2 + 1;
    var a := AddressBytes(address);
    var checksum := checksum0 + length % 0x100 + length / 0x100 % 0x100;
    checksum := checksum + a[3] + a[2] + a[1] + a[0];
    record := "S3" + Hex2(length) + HexText(a, 4) + text + Hex2(Complement(checksum)) + "\n";
    LowByte(length);
    NumberOf4(a);
    assert checksum == checksum0 + length + Sum(a, 4);
    RecordPieces(length, a, b.data);
  }

  lemma LowByte(x: byte)
    ensures x % 0x100 + x / 0x100 % 0x100 == x
  {
  }

  lemma RecordPieces(length: byte, a: seq<byte>, data: seq<byte>)
    requires |a| == 4 && length == 4 + |data| + 1
    ensures var check := Complement(Sum(data, |data|) + length + Sum(a, 4));
      "S3" + Hex2(length) + HexText(a, 4) + HexText(data, |data|) + Hex2(check) + "\n" ==
      Line(Checked([length] + (a + data)))
  {
    var body := [length] + (a + data);
    var check := Complement(Sum(body, |body|));
    BodyPieces(length, a, data);
    HexLast(body, check);
    Regroup(Hex2(length), HexText(a, 4), HexText(data, |data|), Hex2(check));
  }

  lemma BodyPieces(length: byte, a: seq<byte>, data: seq<byte>)
    requires |a| == 4
    ensures Sum([length] + (a + data), 5 + |data|) == length as int + (Sum(a, 4) + Sum(data, |data|))
    ensures HexText([length] + (a + data), 5 + |data|) == Hex2(length) + (HexText(a, 4) + HexText(data, |data|))
  {
    SumConcat([length], a + data, 4 + |data|);
    SumConcat(a, data, |data|);
    assert Sum([length], 1) == length && HexText([length], 1) == Hex2(length);
    HexConcat([length], a + data, 4 + |data|);
    HexConcat(a, data, |data|);
  }

  lemma HexLast(body: seq<byte>, check: byte)
    ensures HexText(body + [check], |body| + 1) == HexText(body, |body|) + Hex2(check)
  {
    HexPrefix(body, [check], |body|);
  }

  lemma Regroup(a: string, b: string, c: string, d: string)
    ensures "S3" + ((a + (b + c)) + d) + "\n" == "S3" + a + b + c + d + "\n"
  {
  }

  lemma BytesNext(memory: u32 -> byte, address: u32, n: nat)
    ensures var c := memory((address + n) % 0x1_0000_0000);
      HexText(Bytes(memory, address, n + 1), n + 1) == HexText(Bytes(memory, address, n), n) + Hex2(c) &&
      Sum(Bytes(memory, address, n + 1), n + 1) == Sum(Bytes(memory, address, n), n) + c
  {
    var c := memory((address + n) % 0x1_0000_0000);
    assert Bytes(memory, address, n + 1) == Bytes(memory, address, n) + [c];
    HexPrefix(Bytes(memory, address, n), [c], n);
    SumPrefix(Bytes(memory, address, n), [c], n);
  }
}
