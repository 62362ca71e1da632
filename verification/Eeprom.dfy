/**
 EEPROM transfers: a byte range is cut into I2C transfers for a device whose
 address counter, on a write, wraps inside a page.
 */
module Eeprom {
  import opened Arithmetic
  import opened Machine

  /** addrLen is CONFIG_SYS_I2C_EEPROM_ADDR_LEN and rxtx I2C_RXTX_LEN. Without
      CONFIG_SYS_EEPROM_PAGE_WRITE_BITS the code behaves as for 8 bits. */
  datatype Config = Config(addrLen: nat, pageBits: nat, rxtx: nat, device: byte)

  predicate ValidConfig(c: Config) {
    (c.addrLen == 1 || c.addrLen == 2) && c.rxtx > 0 && c.pageBits <= 30
  }

  // ------------------------------------------------------------- the device

  datatype Cell = Cell(chip: byte, inner: nat)

  /** How much one chip select addresses. */
  function Block(c: Config): (m: nat)
    ensures m == 0x100 || m == 0x1_0000
  {
    if c.addrLen == 1 then 0x100 else 0x1_0000
  }

  /** Bitwise or of the low n bits. */
  function Or(a: nat, b: nat, n: nat): (r: nat)
    ensures r < Pow2(n)
  {
    if n == 0 then 0 else 2 * Or(a / 2, b / 2, n - 1) + (if a % 2 == 1 || b % 2 == 1 then 1 else 0)
  }

  /** No bit in common among the low n. */
  predicate Disjoint(a: nat, b: nat, n: nat) {
    n > 0 ==> !(a % 2 == 1 && b % 2 == 1) && Disjoint(a / 2, b / 2, n - 1)
  }

  /** addr[0]: the block number, cut to 8 bits, with the device address inserted. */
  function Chip(c: Config, offset: u32): byte {
    assert Pow2(2) == 4 && Pow2(4) == 16 && Pow2(6) == 64 && Pow2(8) == 256;
    Or(offset / Block(c) % 0x100, c.device, 8)
  }

  /** Where the flat offset lies. */
  function CellOf(c: Config, offset: u32): Cell {
    Cell(Chip(c, offset), offset % Block(c))
  }

  /** The position of an address in its page. */
  function InPage(x: nat, page: nat): (r: nat)
    requires page > 0
    ensures r <= x && r < page
  {
    x % page
  }

  /** Where byte i of a write to this offset goes: the counter wraps in its page. */
  function WriteCell(c: Config, offset: u32, i: nat): Cell {
    var page, inner := Pow2(c.pageBits), offset % Block(c);
    Cell(Chip(c, offset), inner - InPage(inner, page) + InPage(InPage(inner, page) + i, page))
  }

  /** Where byte i of a read comes from: the counter runs through the block. */
  function ReadCell(c: Config, offset: u32, i: nat): Cell {
    Cell(Chip(c, offset), (offset % Block(c) + i) % Block(c))
  }

  type Cells = Cell -> byte

  function Updated(cells: Cells, at: Cell, b: byte): Cells {
    x => if x == at then b else cells(x)
  }

  /** The byte meant for each offset. */
  type Source = nat -> byte

  /** The device after the first n bytes of one write. */
  function Put(c: Config, cells: Cells, offset: u32, src: Source, n: nat): Cells {
    if n == 0 then cells
    else Updated(Put(c, cells, offset, src, n - 1), WriteCell(c, offset, n - 1), src(offset + (n - 1)))
  }

  // ------------------------------------------------------------ the cutting

  function Min(a: nat, b: nat): nat {
    if a < b then a else b
  }

  /** The length of the next write. */
  function WriteLength(c: Config, offset: u32, end: u32): (len: nat)
    requires ValidConfig(c) && offset < end
    ensures 0 < len <= end - offset && len <= c.rxtx
  {
    var page := Pow2(c.pageBits);
    Min(end - offset, Min(c.rxtx, page - InPage(offset % 0x100, page)))
  }

  /** The length of the next read. */
  function ReadLength(c: Config, offset: u32, end: u32): (len: nat)
    requires ValidConfig(c) && offset < end
    ensures 0 < len <= end - offset && len <= c.rxtx && len <= 0x100 - offset % 0x100
  {
    Min(end - offset, Min(c.rxtx, 0x100 - offset % 0x100))
  }

  datatype Transfer = Transfer(offset: u32, len: nat)

  /** The transfers of a read. */
  function Reads(c: Config, offset: u32, end: u32): seq<Transfer>
    requires ValidConfig(c)
    decreases end - offset
  {
    if offset >= end then []
    else
      var len := ReadLength(c, offset, end);
      [Transfer(offset, len)] + Reads(c, offset + len, end)
  }

  function Writes(c: Config, offset: u32, end: u32): seq<Transfer>
    requires ValidConfig(c)
    decreases end - offset
  {
    if offset >= end then []
    else
      var len := WriteLength(c, offset, end);
      [Transfer(offset, len)] + Writes(c, offset + len, end)
  }

  /** No transfer of the write is longer than the bus allows, and they tile the
      range: each begins where the one before it ends. */
  lemma {:induction false} WritesTile(c: Config, offset: u32, end: u32)
    requires ValidConfig(c) && offset < end
    ensures var w := Writes(c, offset, end);
      && |w| > 0 && w[0].offset == offset && w[|w| - 1].offset + w[|w| - 1].len == end
      && (forall k :: 0 <= k < |w| ==> 0 < w[k].len <= c.rxtx)
      && (forall j, k :: 0 <= j && k == j + 1 < |w| ==> w[k].offset == w[j].offset + w[j].len)
    decreases end - offset
  {
    var len := WriteLength(c, offset, end);
    var w, rest := Writes(c, offset, end), Writes(c, offset + len, end);
    assert forall k :: 0 < k < |w| ==> w[k] == rest[k - 1];
    if offset + len < end {
      WritesTile(c, offset + len, end);
      assert w[|w| - 1] == rest[|rest| - 1];
    } else {
      assert rest == [];
    }
  }

  predicate InOnePage(c: Config, t: Transfer) {
    InPage(t.offset, Pow2(c.pageBits)) + t.len <= Pow2(c.pageBits)
  }

  // --------------------------------------------------------- page arithmetic

  lemma {:induction false} Pow2Divides(bits: nat)
    requires bits <= 8
    ensures Pow2(bits) * Pow2(8 - bits) == 0x100
  {
    assert Pow2(1) == 2 && Pow2(2) == 4;
    assert Pow2(3) == 8 && Pow2(4) == 16;
    assert Pow2(5) == 32 && Pow2(6) == 64;
    assert Pow2(7) == 128 && Pow2(8) == 256;
  }

  lemma {:induction false} Pow2Large(bits: nat)
    requires bits >= 8
    ensures Pow2(bits) >= 0x100 && Pow2(bits) % 0x100 == 0
  {
    if bits == 8 {
      Pow2Divides(8);
    } else {
      Pow2Large(bits - 1);
    }
  }

  lemma {:induction false} Pow2Five(bits: nat)
    ensures Pow2(bits + 5) == 32 * Pow2(bits)
  {
    assert Pow2(bits + 2) == 4 * Pow2(bits);
    assert Pow2(bits + 4) == 4 * Pow2(bits + 2);
  }

  lemma Pow2Bound(bits: nat)
    requires bits <= 30
    ensures Pow2(bits) <= 0x4000_0000
  {
    Pow2Five(0);
    Pow2Five(5);
    Pow2Five(10);
    Pow2Five(15);
    Pow2Five(20);
    Pow2Five(25);
    Pow2Grows(bits, 30);
  }

  lemma {:induction false} Pow2Grows(a: nat, b: nat)
    requires a <= b
    ensures Pow2(a) <= Pow2(b)
  {
    if a < b {
      Pow2Grows(a, b - 1);
    }
  }

  /** Block a, page b in it, byte s in that. */
  lemma Digits(x: nat, page: nat, q: nat, a: nat, b: nat, s: nat)
    requires page > 0 && b < q && s < page && x == a * (page * q) + (b * page + s)
    ensures page * q > 0 && b * page + s < page * q
    ensures x / (page * q) == a && x % (page * q) == b * page + s
    ensures x % page == s && (b * page + s) % page == s
  {
    PositiveProduct(page, q);
    MulMonotone(b + 1, q, page);
    Grouping(page, q, a, b);
    DivModUnique(x, page * q, a, b * page + s);
    DivModUnique(x, page, a * q + b, s);
    DivModUnique(b * page + s, page, b, s);
  }

  lemma Grouping(page: nat, q: nat, a: nat, b: nat)
    ensures a * (page * q) + b * page == (a * q + b) * page
    ensures (b + 1) * page == b * page + page && q * page == page * q
  {
    assert a * (page * q) == (a * q) * page;
  }

  lemma Split(x: nat, page: nat, q: nat) returns (a: nat, b: nat, s: nat)
    requires page > 0 && q > 0
    ensures b < q && s < page && x == a * (page * q) + (b * page + s)
  {
    var t: nat := x / page;
    s := x % page;
    assert x == t * page + s;
    a, b := t / q, t % q;
    assert t == a * q + b;
    Grouping(page, q, a, b);
  }

  /** Moving on inside a page does not leave the block. */
  lemma StaysInBlock(x: nat, page: nat, q: nat, i: nat)
    requires page > 0 && q > 0 && x % page + i < page
    ensures page * q > 0
    ensures (x + i) % (page * q) == x % (page * q) + i && (x + i) / (page * q) == x / (page * q)
    ensures x % (page * q) % page == x % page
  {
    var a, b, s := Split(x, page, q);
    Digits(x, page, q, a, b, s);
    Digits(x + i, page, q, a, b, s + i);
  }

  /** The device and the code agree about pages: the page size divides the 256 bytes
      of the block offset, or a transfer is one byte. */
  predicate Fits(c: Config) {
    c.pageBits <= 8 || c.rxtx <= 1
  }

  lemma FirstInPage(c: Config, offset: u32, end: u32)
    requires ValidConfig(c) && Fits(c) && offset < end
    ensures InOnePage(c, Transfer(offset, WriteLength(c, offset, end)))
  {
    if c.pageBits <= 8 {
      var page, q := Pow2(c.pageBits), Pow2(8 - c.pageBits);
      Pow2Divides(c.pageBits);
      StaysInBlock(offset, page, q, 0);
    }
  }

  /** No transfer is shorter than it has to be: a longer write would go beyond the range, beyond
      what the bus allows, or beyond its page; a longer read beyond its 256 bytes. */
  lemma LongestTransfers(c: Config, offset: u32, end: u32, n: nat)
    requires ValidConfig(c) && Fits(c) && offset < end
    ensures n > WriteLength(c, offset, end) ==>
      n > end - offset || n > c.rxtx || !InOnePage(c, Transfer(offset, n))
    ensures n > ReadLength(c, offset, end) ==>
      n > end - offset || n > c.rxtx || offset % 0x100 + n > 0x100
  {
    if c.pageBits <= 8 {
      var page, q := Pow2(c.pageBits), Pow2(8 - c.pageBits);
      Pow2Divides(c.pageBits);
      StaysInBlock(offset, page, q, 0);
    }
  }

  /** With pages of more than 256 bytes a write crosses a page, unless the bus allows
      one byte only: the code takes the page offset from the low 8 bits. */
  lemma PagesRespected(c: Config)
    requires ValidConfig(c)
    ensures Fits(c) <==>
      forall offset: u32, end: u32 :: offset < end ==> InOnePage(c, Transfer(offset, WriteLength(c, offset, end)))
  {
    if Fits(c) {
      forall offset: u32, end: u32 | offset < end
        ensures InOnePage(c, Transfer(offset, WriteLength(c, offset, end)))
      {
        FirstInPage(c, offset, end);
      }
    } else {
      CrossingExample(c);
    }
  }

  lemma CrossingExample(c: Config)
    requires ValidConfig(c) && !Fits(c)
    ensures var page := Pow2(c.pageBits);
      page + 1 < WORD && WriteLength(c, page - 1, page + 1) == 2 && !InOnePage(c, Transfer(page - 1, 2))
  {
    var page := Pow2(c.pageBits);
    Pow2Large(c.pageBits);
    Pow2Bound(c.pageBits);
    TwoBytes(c, page - 1);
    DivModUnique(page - 1, page, 0, page - 1);
  }

  /** Two bytes from the end of 256 on are one transfer. */
  lemma TwoBytes(c: Config, offset: u32)
    requires ValidConfig(c) && !Fits(c) && offset % 0x100 == 0xFF && offset + 2 < WORD
    ensures WriteLength(c, offset, offset + 2) == 2
  {
    var page := Pow2(c.pageBits);
    Pow2Large(c.pageBits - 1);
    DivModUnique(0xFF, page, 0, 0xFF);
  }

  /** All transfers of a write stay in their pages. */
  lemma {:induction false} WritesInPages(c: Config, offset: u32, end: u32)
    requires ValidConfig(c) && Fits(c)
    ensures forall k :: 0 <= k < |Writes(c, offset, end)| ==> InOnePage(c, Writes(c, offset, end)[k])
    decreases end - offset
  {
    if offset < end {
      FirstInPage(c, offset, end);
      WritesInPages(c, offset + WriteLength(c, offset, end), end);
    }
  }

  // --------------------------------------------------------- the flat copy

  /** Inside its page a write goes to the flat offsets. */
  lemma WriteCellIsFlat(c: Config, offset: u32, len: nat, i: nat)
    requires ValidConfig(c) && Fits(c) && InOnePage(c, Transfer(offset, len)) && i < len && offset + len < WORD
    requires len <= c.rxtx
    ensures WriteCell(c, offset, i) == CellOf(c, offset + i)
  {
    var page := Pow2(c.pageBits);
    if c.pageBits <= 8 {
      var q := Pow2(8 - c.pageBits);
      Pow2Divides(c.pageBits);
      BlocksOfPages(page, q);
      FlatInBlock(offset, page, if c.addrLen == 1 then q else q * 0x100, i);
    } else {
      var inner := offset % Block(c);
      DivModUnique(InPage(inner, page), page, 0, InPage(inner, page));
    }
  }

  lemma BlocksOfPages(page: nat, q: nat)
    requires page * q == 0x100
    ensures page * (q * 0x100) == 0x1_0000 && q > 0
  {
    assert page * (q * 0x100) == (page * q) * 0x100;
  }

  lemma FlatInBlock(x: nat, page: nat, q: nat, i: nat)
    requires page > 0 && q > 0 && InPage(x, page) + i < page
    ensures page * q > 0
    ensures var inner := x % (page * q);
      inner - InPage(inner, page) + InPage(InPage(inner, page) + i, page) == (x + i) % (page * q)
    ensures x / (page * q) == (x + i) / (page * q)
  {
    StaysInBlock(x, page, q, i);
    DivModUnique(x % page + i, page, 0, x % page + i);
  }

  /** The counter does not leave the flat offsets in the first n bytes of a write. */
  ghost predicate Flat(c: Config, offset: u32, n: nat)
    requires offset + n < WORD
  {
    forall i: nat :: i < n ==> WriteCell(c, offset, i) == CellOf(c, offset + i)
  }

  /** Nor does it in any write of the range. */
  ghost predicate FlatRange(c: Config, offset: u32, end: u32)
    requires ValidConfig(c)
    decreases end - offset
  {
    offset < end ==>
      var len := WriteLength(c, offset, end);
      Flat(c, offset, len) && FlatRange(c, offset + len, end)
  }

  lemma {:induction false} FitsIsFlat(c: Config, offset: u32, end: u32)
    requires ValidConfig(c) && Fits(c)
    ensures FlatRange(c, offset, end)
    decreases end - offset
  {
    if offset < end {
      var len := WriteLength(c, offset, end);
      FirstInPage(c, offset, end);
      forall i: nat | i < len
        ensures WriteCell(c, offset, i) == CellOf(c, offset + i)
      {
        WriteCellIsFlat(c, offset, len, i);
      }
      FitsIsFlat(c, offset + len, end);
    }
  }

  /** Different offsets of the range are different cells. */
  ghost predicate Injective(c: Config, lo: nat, hi: nat) {
    forall o: u32, p: u32 :: lo <= o < p < hi ==> CellOf(c, o) != CellOf(c, p)
  }

  lemma {:induction false} OrDiffers(x: nat, y: nat, d: nat, n: nat)
    requires x < Pow2(n) && y < Pow2(n)
    requires Disjoint(x, d, n) && Disjoint(y, d, n) && Or(x, d, n) == Or(y, d, n)
    ensures x == y
  {
    if n > 0 {
      OrDiffers(x / 2, y / 2, d / 2, n - 1);
    }
  }

  function Bit(x: nat, k: nat): nat {
    x / Pow2(k) % 2
  }

  lemma {:induction false} BitOfHalf(x: nat, k: nat)
    ensures Bit(x / 2, k) == Bit(x, k + 1)
  {
    var p := Pow2(k);
    var q, r := x / 2 / p, x / 2 % p;
    assert x == 2 * (x / 2) + x % 2 && x / 2 == q * p + r;
    assert q * (2 * p) == 2 * (q * p);
    DivModUnique(x, 2 * p, q, 2 * r + x % 2);
  }

  /** A bit of the or is set exactly when it is set on one side. */
  lemma {:induction false} OrBits(a: nat, b: nat, n: nat, k: nat)
    requires k < n
    ensures Bit(Or(a, b, n), k) == 1 <==> Bit(a, k) == 1 || Bit(b, k) == 1
    decreases n
  {
    var r := Or(a, b, n);
    assert r / 2 == Or(a / 2, b / 2, n - 1);
    if k > 0 {
      OrBits(a / 2, b / 2, n - 1, k - 1);
      BitOfHalf(a, k - 1);
      BitOfHalf(b, k - 1);
      BitOfHalf(r, k - 1);
    }
  }

  lemma {:induction false} OrIsSum(a: nat, b: nat, n: nat)
    requires a < Pow2(n) && b < Pow2(n) && Disjoint(a, b, n)
    ensures Or(a, b, n) == a + b
  {
    if n > 0 {
      OrIsSum(a / 2, b / 2, n - 1);
    }
  }

  /** Without a common bit the byte that selects the chip is the device address plus the number of
      the block of 256 or 65536 bytes, and the rest of the offset counts inside it. */
  lemma ChipIsSum(c: Config, offset: u32)
    requires ValidConfig(c) && Selectable(c, offset)
    ensures var block := if c.addrLen == 1 then 0x100 else 0x1_0000;
      CellOf(c, offset).chip as int == c.device + offset / block && CellOf(c, offset).inner == offset % block
  {
    SmallBlock(offset / Block(c));
    SmallBlock(c.device);
    OrIsSum(offset / Block(c), c.device, 8);
  }

  /** The block number is cut to 8 bits: 256 blocks further the same cells come again. */
  lemma ChipComesRound(c: Config, offset: u32)
    requires ValidConfig(c) && offset + 256 * Block(c) < 0x1_0000_0000
    ensures CellOf(c, offset + 256 * Block(c)) == CellOf(c, offset)
  {
    var block := Block(c);
    DivModUnique(offset + 256 * block, block, offset / block + 256, offset % block);
    ModMore(offset / block);
  }

  lemma ModMore(q: nat)
    ensures (q + 0x100) % 0x100 == q % 0x100
  {
  }

  predicate Selectable(c: Config, offset: u32) {
    offset / Block(c) < 0x100 && Disjoint(offset / Block(c), c.device, 8)
  }

  lemma CellsDiffer(c: Config, o: u32, p: u32)
    requires Selectable(c, o) && Selectable(c, p) && CellOf(c, o) == CellOf(c, p)
    ensures o == p
  {
    var x, y, m: nat := o / Block(c), p / Block(c), Block(c);
    SmallBlock(x);
    SmallBlock(y);
    OrDiffers(x, y, c.device, 8);
    SameDigits(o, p, m);
  }

  lemma SmallBlock(x: nat)
    requires x < 0x100
    ensures x % 0x100 == x && x < Pow2(8)
  {
    Pow2Divides(0);
  }

  lemma SameDigits(x: nat, y: nat, m: nat)
    requires (m == 0x100 || m == 0x1_0000) && x / m == y / m && x % m == y % m
    ensures x == y
  {
  }

  /** That holds when the block numbers fit in 8 bits and none has a bit in common
      with the device address. */
  lemma DisjointBits(c: Config, lo: nat, hi: nat)
    requires forall o: u32 :: lo <= o < hi ==> Selectable(c, o)
    ensures Injective(c, lo, hi)
  {
    forall o: u32, p: u32 | lo <= o < p < hi
      ensures CellOf(c, o) != CellOf(c, p)
    {
      if CellOf(c, o) == CellOf(c, p) {
        CellsDiffer(c, o, p);
      }
    }
  }

  lemma InjectiveBack(c: Config, lo: nat, mid: nat, hi: nat)
    requires lo <= mid <= hi && Injective(c, lo, hi)
    ensures Injective(c, mid, hi) && Injective(c, lo, mid)
  {
  }

  /** The device after transfer number k; one that fails changes nothing. */
  function AfterOne(c: Config, fails: nat -> bool, cells: Cells, k: nat, src: Source, offset: u32, len: nat): Cells {
    if fails(k) then cells else Put(c, cells, offset, src, len)
  }

  /** The device after the writes of the range, of which this is number k. */
  function AfterWrites(c: Config, fails: nat -> bool, cells: Cells, k: nat, src: Source, offset: u32, end: u32): Cells
    requires ValidConfig(c)
    decreases end - offset
  {
    if offset >= end then cells
    else
      var len := WriteLength(c, offset, end);
      AfterWrites(c, fails, AfterOne(c, fails, cells, k, src, offset, len), k + 1, src, offset + len, end)
  }

  lemma WritesStep(c: Config, fails: nat -> bool, cells: Cells, k: nat, src: Source, offset: u32, end: u32)
    requires ValidConfig(c) && offset < end
    ensures var len := WriteLength(c, offset, end);
      && AfterWrites(c, fails, cells, k, src, offset, end) ==
         AfterWrites(c, fails, AfterOne(c, fails, cells, k, src, offset, len), k + 1, src, offset + len, end)
      && |Writes(c, offset, end)| == 1 + |Writes(c, offset + len, end)|
  {
  }

  /** Every cell of the range holds its byte. */
  ghost predicate Complete(c: Config, cells: Cells, src: Source, lo: nat, hi: nat) {
    forall o: u32 :: lo <= o < hi ==> cells(CellOf(c, o)) == src(o)
  }

  /** A cell of the range holds its byte or what it held before; no other cell has
      changed. */
  ghost predicate Confined(c: Config, cells: Cells, before: Cells, src: Source, lo: nat, hi: nat) {
    && (forall o: u32 :: lo <= o < hi ==>
        cells(CellOf(c, o)) == src(o) || cells(CellOf(c, o)) == before(CellOf(c, o)))
    && (forall x: Cell :: (forall o: u32 :: lo <= o < hi ==> CellOf(c, o) != x) ==> cells(x) == before(x))
  }

  /** A flat copy of the range; `whole` says that every byte has arrived. */
  ghost predicate Copied(c: Config, cells: Cells, before: Cells, src: Source, lo: nat, hi: nat, whole: bool) {
    Confined(c, cells, before, src, lo, hi) && (whole ==> Complete(c, cells, src, lo, hi))
  }

  /** Two neighbouring copies are one copy. */
  lemma Join(c: Config, cells: Cells, middle: Cells, before: Cells, src: Source, lo: nat, mid: nat, hi: nat,
             first: bool, second: bool)
    requires lo <= mid <= hi <= WORD && Injective(c, lo, hi)
    requires Copied(c, middle, before, src, lo, mid, first) && Copied(c, cells, middle, src, mid, hi, second)
    ensures Copied(c, cells, before, src, lo, hi, first && second)
  {
    forall o: u32 | lo <= o < hi
      ensures cells(CellOf(c, o)) == src(o) || cells(CellOf(c, o)) == before(CellOf(c, o))
      ensures first && second ==> cells(CellOf(c, o)) == src(o)
    {
      if o < mid {
        assert forall p: u32 :: mid <= p < hi ==> CellOf(c, o) != CellOf(c, p);
      } else {
        assert forall p: u32 :: lo <= p < mid ==> CellOf(c, p) != CellOf(c, o);
      }
    }
  }

  /** One write along flat offsets is a flat copy. */
  lemma {:induction false} PutIsFlat(c: Config, cells: Cells, offset: u32, src: Source, n: nat)
    requires offset + n < WORD && Flat(c, offset, n) && Injective(c, offset, offset + n)
    ensures Copied(c, Put(c, cells, offset, src, n), cells, src, offset, offset + n, true)
  {
    if n > 0 {
      var last: u32, middle := offset + (n - 1), Put(c, cells, offset, src, n - 1);
      InjectiveBack(c, offset, last, offset + n);
      PutIsFlat(c, cells, offset, src, n - 1);
      assert WriteCell(c, offset, n - 1) == CellOf(c, last);
      OneMore(c, middle, cells, src, offset, last);
    }
  }

  lemma OneMore(c: Config, middle: Cells, before: Cells, src: Source, lo: nat, last: u32)
    requires lo <= last && Injective(c, lo, last + 1) && Copied(c, middle, before, src, lo, last, true)
    ensures Copied(c, Updated(middle, CellOf(c, last), src(last)), before, src, lo, last + 1, true)
  {
    OneCopied(c, middle, src, last);
    Join(c, Updated(middle, CellOf(c, last), src(last)), middle, before, src, lo, last, last + 1, true, true);
  }

  lemma OneCopied(c: Config, cells: Cells, src: Source, at: u32)
    ensures Copied(c, Updated(cells, CellOf(c, at), src(at)), cells, src, at, at + 1, true)
  {
  }

  lemma FirstCopied(c: Config, fails: nat -> bool, cells: Cells, k: nat, src: Source, offset: u32, len: nat)
    requires offset + len < WORD && Flat(c, offset, len) && Injective(c, offset, offset + len)
    ensures Copied(c, AfterOne(c, fails, cells, k, src, offset, len), cells, src, offset, offset + len, !fails(k))
  {
    if !fails(k) {
      PutIsFlat(c, cells, offset, src, len);
    }
  }

  /** None of the n transfers from the k-th on fails. */
  ghost predicate NoneFails(fails: nat -> bool, k: nat, n: nat) {
    forall j :: k <= j < k + n ==> !fails(j)
  }

  lemma NoneFailsLast(fails: nat -> bool, k: nat, n: nat)
    ensures NoneFails(fails, k, n + 1) <==> NoneFails(fails, k, n) && !fails(k + n)
  {
  }

  lemma NoneFailsStep(fails: nat -> bool, k: nat, n: nat)
    ensures NoneFails(fails, k, n + 1) <==> !fails(k) && NoneFails(fails, k + 1, n)
  {
  }

  /** Main theorem: where the counter stays on flat offsets a write is one flat copy.
      When no transfer fails every byte of the range is in its cell; in any case a cell
      of the range holds its byte or what it held before, and no other cell changes. */
  lemma {:induction false} WriteIsFlatCopy(c: Config, fails: nat -> bool, cells: Cells, k: nat, src: Source,
                                           offset: u32, end: u32)
    requires ValidConfig(c) && offset <= end && FlatRange(c, offset, end) && Injective(c, offset, end)
    ensures Copied(c, AfterWrites(c, fails, cells, k, src, offset, end), cells, src, offset, end,
                   NoneFails(fails, k, |Writes(c, offset, end)|))
    decreases end - offset
  {
    if offset < end {
      var len := WriteLength(c, offset, end);
      var next: u32, middle := offset + len, AfterOne(c, fails, cells, k, src, offset, len);
      InjectiveBack(c, offset, next, end);
      FirstCopied(c, fails, cells, k, src, offset, len);
      WriteIsFlatCopy(c, fails, middle, k + 1, src, next, end);
      WritesStep(c, fails, cells, k, src, offset, end);
      NoneFailsStep(fails, k, |Writes(c, next, end)|);
      Join(c, AfterWrites(c, fails, cells, k, src, offset, end), middle, cells, src, offset, next, end,
           !fails(k), NoneFails(fails, k + 1, |Writes(c, next, end)|));
    }
  }

  // ------------------------------------------- exactly when it is a flat copy

  /** The byte for offset o goes to another cell than its own. */
  ghost predicate Strays(c: Config, offset: u32, end: u32, o: u32)
    requires ValidConfig(c)
    decreases end - offset
  {
    offset < end ==>
      var len := WriteLength(c, offset, end);
      && (offset <= o < offset + len ==> WriteCell(c, offset, o - offset) != CellOf(c, o))
      && Strays(c, offset + len, end, o)
  }

  lemma {:induction false} StraysBefore(c: Config, offset: u32, end: u32, o: u32)
    requires ValidConfig(c) && o < offset
    ensures Strays(c, offset, end, o)
    decreases end - offset
  {
    if offset < end {
      StraysBefore(c, offset + WriteLength(c, offset, end), end, o);
    }
  }

  lemma NotFlat(c: Config, offset: u32, n: nat) returns (o: u32)
    requires offset + n < WORD && !Flat(c, offset, n)
    ensures offset <= o < offset + n && WriteCell(c, offset, o - offset) != CellOf(c, o)
  {
    var i: nat :| i < n && WriteCell(c, offset, i) != CellOf(c, offset + i);
    o := offset + i;
  }

  lemma {:induction false} FindStray(c: Config, offset: u32, end: u32) returns (o: u32)
    requires ValidConfig(c) && !FlatRange(c, offset, end)
    ensures offset <= o < end && Strays(c, offset, end, o)
    decreases end - offset
  {
    var len := WriteLength(c, offset, end);
    if Flat(c, offset, len) {
      o := FindStray(c, offset + len, end);
    } else {
      o := NotFlat(c, offset, len);
      StraysBefore(c, offset + len, end, o);
    }
    StraysHere(c, offset, end, o);
  }

  lemma StraysHere(c: Config, offset: u32, end: u32, o: u32)
    requires ValidConfig(c) && offset < end
    requires var len := WriteLength(c, offset, end);
      && (offset <= o < offset + len ==> WriteCell(c, offset, o - offset) != CellOf(c, o))
      && Strays(c, offset + len, end, o)
    ensures Strays(c, offset, end, o)
  {
  }

  /** 1 for offset o, 0 for all others. */
  function Single(o: u32): Source {
    (p: nat) => if p == o then 1 else 0
  }

  lemma {:induction false} PutMisses(c: Config, cells: Cells, offset: u32, n: nat, o: u32)
    requires cells(CellOf(c, o)) == 0
    requires offset <= o < offset + n ==> WriteCell(c, offset, o - offset) != CellOf(c, o)
    ensures Put(c, cells, offset, Single(o), n)(CellOf(c, o)) == 0
  {
    if n > 0 {
      PutMisses(c, cells, offset, n - 1, o);
    }
  }

  lemma {:induction false} WritesMiss(c: Config, fails: nat -> bool, cells: Cells, k: nat,
                                      offset: u32, end: u32, o: u32)
    requires ValidConfig(c) && cells(CellOf(c, o)) == 0 && Strays(c, offset, end, o)
    ensures AfterWrites(c, fails, cells, k, Single(o), offset, end)(CellOf(c, o)) == 0
    decreases end - offset
  {
    if offset < end {
      var len := WriteLength(c, offset, end);
      PutMisses(c, cells, offset, len, o);
      WritesMiss(c, fails, AfterOne(c, fails, cells, k, Single(o), offset, len), k + 1, offset + len, end, o);
    }
  }

  function Never(): nat -> bool {
    (k: nat) => false
  }

  function Zeros(): Cells {
    (x: Cell) => 0
  }

  /** A write without a failure stores every content at the flat offsets exactly when
      the counter stays on them. */
  lemma FlatExact(c: Config, offset: u32, end: u32)
    requires ValidConfig(c) && offset <= end && Injective(c, offset, end)
    ensures FlatRange(c, offset, end) <==>
      forall cells: Cells, src: Source ::
        Complete(c, AfterWrites(c, Never(), cells, 0, src, offset, end), src, offset, end)
  {
    if FlatRange(c, offset, end) {
      forall cells: Cells, src: Source
        ensures Complete(c, AfterWrites(c, Never(), cells, 0, src, offset, end), src, offset, end)
      {
        WriteIsFlatCopy(c, Never(), cells, 0, src, offset, end);
      }
    } else {
      var o := FindStray(c, offset, end);
      var cells, src := Zeros(), Single(o);
      WritesMiss(c, Never(), cells, 0, offset, end, o);
      assert src(o) == 1;
      assert !Complete(c, AfterWrites(c, Never(), cells, 0, src, offset, end), src, offset, end);
    }
  }

  lemma StrayPair(c: Config, offset: u32)
    requires ValidConfig(c) && !Fits(c) && offset % 0x100 == 0xFF && offset + 2 < WORD
    requires WriteCell(c, offset, 1) != CellOf(c, offset + 1)
    ensures !FlatRange(c, offset, offset + 2)
  {
    TwoBytes(c, offset);
    var i: nat := 1;
    assert WriteCell(c, offset, i) != CellOf(c, offset + i);
  }

  lemma {:induction false} OrFull(a: nat, n: nat)
    ensures Or(a, Pow2(n) - 1, n) == Pow2(n) - 1
  {
    if n > 0 {
      var half := Pow2(n - 1);
      DivModUnique(2 * half - 1, 2, half - 1, 1);
      OrFull(a / 2, n - 1);
      assert Or(a, 2 * half - 1, n) == 2 * Or(a / 2, half - 1, n - 1) + 1;
    }
  }

  /** Unless the device address has all its bits, two neighbouring blocks differ. */
  lemma {:induction false} BlocksDiffer(d: nat, n: nat) returns (k: nat)
    requires d < Pow2(n) - 1
    ensures 0 < k < Pow2(n) && Or(k - 1, d, n) != Or(k, d, n)
  {
    if d % 2 == 0 {
      k := 1;
    } else {
      k := BlocksDiffer(d / 2, n - 1);
      k := 2 * k;
      assert (k - 1) / 2 == k / 2 - 1;
    }
  }

  /** Pages that are as large as the block of one chip select, with a device address that
      leaves no room for block numbers. */
  predicate OneBlock(c: Config) {
    c.addrLen == 2 && c.pageBits == 16 && c.device == 0xFF
  }

  lemma Pow2Block()
    ensures Pow2(8) == 0x100 && Pow2(15) == 0x8000 && Pow2(16) == 0x1_0000
  {
    Pow2Five(0);
    Pow2Five(5);
    Pow2Five(10);
    Pow2Divides(8);
    assert Pow2(16) == 2 * Pow2(15);
  }

  lemma {:induction false} OneBlockIsFlat(c: Config, offset: u32, end: u32)
    requires ValidConfig(c) && OneBlock(c)
    ensures FlatRange(c, offset, end)
    decreases end - offset
  {
    if offset < end {
      var len := WriteLength(c, offset, end);
      forall i: nat | i < len
        ensures WriteCell(c, offset, i) == CellOf(c, offset + i)
      {
        OneBlockCell(c, offset, i);
      }
      OneBlockIsFlat(c, offset + len, end);
    }
  }

  lemma OneBlockCell(c: Config, offset: u32, i: nat)
    requires OneBlock(c) && offset + i < WORD
    ensures WriteCell(c, offset, i) == CellOf(c, offset + i)
  {
    Pow2Block();
    FullChip(c, offset);
    FullChip(c, offset + i);
    InBlock(offset, i);
  }

  lemma FullChip(c: Config, offset: u32)
    requires c.device == 0xFF
    ensures Chip(c, offset) == 0xFF
  {
    Pow2Block();
    OrFull(offset / Block(c) % 0x100, 8);
  }

  lemma InBlock(x: nat, i: nat)
    ensures var inner := x % 0x1_0000;
      inner - InPage(inner, 0x1_0000) + InPage(InPage(inner, 0x1_0000) + i, 0x1_0000) == (x + i) % 0x1_0000
  {
  }

  lemma StrayCell(c: Config, offset: u32, page: nat, inner: nat)
    requires page == Pow2(c.pageBits) && inner == offset % Block(c) && inner < page && offset + 1 < WORD
    requires (if inner + 1 < page then inner + 1 else 0) != (offset + 1) % Block(c)
    ensures WriteCell(c, offset, 1) != CellOf(c, offset + 1)
  {
    DivModUnique(inner, page, 0, inner);
    if inner + 1 < page {
      DivModUnique(inner + 1, page, 0, inner + 1);
    } else {
      DivModUnique(page, page, 1, 0);
    }
  }

  lemma PageSize(c: Config)
    requires ValidConfig(c) && !Fits(c)
    ensures 0x200 <= Pow2(c.pageBits) <= 0x4000_0000 && Pow2(c.pageBits) % 0x100 == 0
    ensures c.pageBits < 16 ==> Pow2(c.pageBits) <= 0x8000
    ensures c.pageBits > 16 ==> Pow2(c.pageBits) > 0x1_0000 && Pow2(c.pageBits) % 0x1_0000 == 0
  {
    Pow2Large(c.pageBits);
    Pow2Large(c.pageBits - 1);
    Pow2Bound(c.pageBits);
    Pow2Block();
    if c.pageBits < 16 {
      Pow2Grows(c.pageBits, 15);
    } else if c.pageBits > 16 {
      Pow2Huge(c.pageBits);
    }
  }

  /** For large pages in general a write that runs over the end of the first page. */
  lemma PageEndStrays(c: Config)
    requires ValidConfig(c) && !Fits(c) && !(c.addrLen == 2 && c.pageBits == 16)
    ensures var page := Pow2(c.pageBits);
      page + 1 < WORD && (page - 1) % 0x100 == 0xFF && WriteCell(c, page - 1, 1) != CellOf(c, page)
  {
    var page := Pow2(c.pageBits);
    PageSize(c);
    MinusOne(page, 0x100);
    if c.addrLen == 1 {
      StrayCell(c, page - 1, page, 0xFF);
    } else if c.pageBits < 16 {
      StrayCell(c, page - 1, page, page - 1);
    } else {
      MinusOne(page, 0x1_0000);
      StrayCell(c, page - 1, page, 0xFFFF);
    }
  }

  lemma MinusOne(x: nat, m: nat)
    requires m > 0 && x > 0 && x % m == 0
    ensures (x - 1) % m == m - 1
  {
    assert x == x / m * m;
    DivModUnique(x - 1, m, x / m - 1, m - 1);
  }

  lemma {:induction false} Pow2Huge(bits: nat)
    requires bits > 16
    ensures Pow2(bits) > 0x1_0000 && Pow2(bits) % 0x1_0000 == 0
  {
    Pow2Block();
    if bits > 17 {
      Pow2Huge(bits - 1);
    }
  }

  lemma BlockEndStrays(c: Config, k: nat)
    requires ValidConfig(c) && c.addrLen == 2 && c.pageBits == 16 && 0 < k < 0x100
    requires Or(k - 1, c.device, 8) != Or(k, c.device, 8)
    ensures var offset := k * 0x1_0000 - 1;
      offset + 2 < WORD && offset % 0x100 == 0xFF && WriteCell(c, offset, 1) != CellOf(c, offset + 1)
  {
    var offset: u32 := k * 0x1_0000 - 1;
    BlockEnd(k);
    ChipAt(c, offset, k - 1);
    ChipAt(c, offset + 1, k);
    assert WriteCell(c, offset, 1).chip != CellOf(c, offset + 1).chip;
  }

  lemma BlockEnd(k: nat)
    requires 0 < k < 0x100
    ensures 0 < k * 0x1_0000 < WORD - 1 && (k * 0x1_0000 - 1) % 0x100 == 0xFF
  {
  }

  lemma ChipAt(c: Config, offset: u32, b: nat)
    requires c.addrLen == 2 && b * 0x1_0000 <= offset < (b + 1) * 0x1_0000 && b < 0x100
    ensures Chip(c, offset) == Or(b, c.device, 8)
  {
    assert offset / 0x1_0000 == b;
  }

  lemma AlwaysFlat(c: Config, offset: u32, end: u32)
    requires ValidConfig(c) && (Fits(c) || OneBlock(c))
    ensures FlatRange(c, offset, end)
  {
    if Fits(c) {
      FitsIsFlat(c, offset, end);
    } else {
      OneBlockIsFlat(c, offset, end);
    }
  }

  lemma NotAlwaysFlat(c: Config) returns (offset: u32)
    requires ValidConfig(c) && !Fits(c) && !OneBlock(c)
    ensures offset + 2 < WORD && !FlatRange(c, offset, offset + 2)
  {
    if c.addrLen == 2 && c.pageBits == 16 {
      Pow2Block();
      var k := BlocksDiffer(c.device, 8);
      BlockEndStrays(c, k);
      offset := k * 0x1_0000 - 1;
    } else {
      PageEndStrays(c);
      offset := Pow2(c.pageBits) - 1;
    }
    StrayPair(c, offset);
  }

  /** The configurations in which every write of every range stays on flat offsets. */
  lemma FlatConfigs(c: Config)
    requires ValidConfig(c)
    ensures Fits(c) || OneBlock(c) <==> forall offset: u32, end: u32 :: FlatRange(c, offset, end)
  {
    if Fits(c) || OneBlock(c) {
      forall offset: u32, end: u32
        ensures FlatRange(c, offset, end)
      {
        AlwaysFlat(c, offset, end);
      }
    } else {
      var offset := NotAlwaysFlat(c);
    }
  }

  /** Inside 256 bytes a read comes from the flat offsets. */
  lemma ReadCellIsFlat(c: Config, offset: u32, i: nat)
    requires ValidConfig(c) && offset % 0x100 + i < 0x100
    ensures offset + i < WORD && ReadCell(c, offset, i) == CellOf(c, offset + i)
  {
    ReadStays(offset, i, Block(c));
  }

  lemma ReadStays(offset: u32, i: nat, m: nat)
    requires offset % 0x100 + i < 0x100 && (m == 0x100 || m == 0x1_0000)
    ensures offset + i < WORD
    ensures (offset % m + i) % m == (offset + i) % m && offset / m == (offset + i) / m
  {
    var q: nat := if m == 0x100 then 1 else 0x100;
    StaysInBlock(offset, 0x100, q, i);
    var inner: nat := (offset + i) % m;
    DivModUnique(inner, m, 0, inner);
    StaysInWord(offset, i);
  }

  lemma StaysInWord(offset: u32, i: nat)
    requires offset % 0x100 + i < 0x100
    ensures offset + i < WORD
  {
    assert offset == offset / 0x100 * 0x100 + offset % 0x100;
  }

  /** The bytes of a flat range. */
  function Range(c: Config, cells: Cells, offset: u32, n: nat): seq<byte>
    requires offset + n <= WORD
  {
    seq<byte>(n, i requires 0 <= i < n => cells(CellOf(c, offset + i)))
  }

  function Meant(src: Source, offset: u32, n: nat): seq<byte> {
    seq<byte>(n, i requires 0 <= i => src(offset + i))
  }

  /** What was written without an error is what the cells of the range then hold. */
  lemma WrittenIsRead(c: Config, fails: nat -> bool, cells: Cells, k: nat, src: Source, offset: u32, end: u32)
    requires ValidConfig(c) && offset <= end && FlatRange(c, offset, end) && Injective(c, offset, end)
    requires NoneFails(fails, k, |Writes(c, offset, end)|)
    ensures Range(c, AfterWrites(c, fails, cells, k, src, offset, end), offset, end - offset) ==
      Meant(src, offset, end - offset)
  {
    WriteIsFlatCopy(c, fails, cells, k, src, offset, end);
    var cells' := AfterWrites(c, fails, cells, k, src, offset, end);
    var held, meant := Range(c, cells', offset, end - offset), Meant(src, offset, end - offset);
    forall i | 0 <= i < end - offset
      ensures held[i] == meant[i]
    {
      var o: u32 := offset + i;
      assert cells'(CellOf(c, o)) == src(o);
    }
  }

  // --------------------------------------------------------------- the loops

  /** The bytes of a buffer, from the offset `start` on. */
  function Bytes(data: seq<byte>, start: u32): Source {
    (o: nat) => if start <= o < start + |data| then data[o - start] else 0
  }

  /** What the remaining writes lead to: the device, and the number of transfers. */
  function Outcome(c: Config, fails: nat -> bool, cells: Cells, k: nat, src: Source, offset: u32, end: u32)
    : (Cells, nat)
    requires ValidConfig(c)
  {
    (AfterWrites(c, fails, cells, k, src, offset, end), k + |Writes(c, offset, end)|)
  }

  lemma OutcomeStep(c: Config, fails: nat -> bool, cells: Cells, k: nat, src: Source, offset: u32, end: u32)
    requires ValidConfig(c) && offset < end
    ensures var len := WriteLength(c, offset, end);
      Outcome(c, fails, cells, k, src, offset, end) ==
      Outcome(c, fails, AfterOne(c, fails, cells, k, src, offset, len), k + 1, src, offset + len, end)
  {
    WritesStep(c, fails, cells, k, src, offset, end);
  }

  /** The bus with the device: its cells, how many transfers there were, and which
      ones fail. */
  class Bus {
    const fails: nat -> bool
    var cells: Cells
    var count: nat

    constructor (fails: nat -> bool, cells: Cells)
      ensures this.fails == fails && this.cells == cells && count == 0
    {
      this.fails, this.cells, count := fails, cells, 0;
    }

    method I2cWrite(c: Config, offset: u32, data: seq<byte>, ghost src: Source) returns (ok: bool)
      requires ValidConfig(c) && forall i: nat :: i < |data| ==> data[i] == src(offset + i)
      modifies this
      ensures count == old(count) + 1 && ok == !fails(old(count))
      ensures cells == AfterOne(c, fails, old(cells), old(count), src, offset, |data|)
    {
      ok := !fails(count);
      count := count + 1;
      if ok {
        for i := 0 to |data|
          invariant cells == Put(c, old(cells), offset, src, i)
          invariant count == old(count) + 1
        {
          cells := Updated(cells, WriteCell(c, offset, i), data[i]);
        }
      }
    }

    method I2cRead(c: Config, offset: u32, buffer: array<byte>, from: nat, len: nat) returns (ok: bool)
      requires ValidConfig(c) && from + len <= buffer.Length
      modifies this`count, buffer
      ensures count == old(count) + 1 && ok == !fails(old(count))
      ensures forall i :: 0 <= i < buffer.Length ==>
        buffer[i] == if ok && from <= i < from + len then cells(ReadCell(c, offset, i - from)) else old(buffer[i])
    {
      ok := !fails(count);
      count := count + 1;
      if ok {
        for k := 0 to len
          invariant count == old(count) + 1
          invariant forall i :: 0 <= i < buffer.Length ==>
            buffer[i] == if from <= i < from + k then cells(ReadCell(c, offset, i - from)) else old(buffer[i])
        {
          buffer[from + k] := cells(ReadCell(c, offset, k));
        }
      }
    }

    /** eeprom_write; the end of the range is computed in 32 bits. */
    method EepromWrite(c: Config, offset0: u32, buffer: array<byte>, cnt: u32) returns (rcode: int)
      requires ValidConfig(c) && cnt <= buffer.Length
      modifies this
      ensures var end := (offset0 + cnt) as int % WORD;
        && (offset0 < end ==> end - offset0 == cnt)
        && cells == AfterWrites(c, fails, old(cells), old(count), Bytes(buffer[..], offset0), offset0, end)
        && count == old(count) + |Writes(c, offset0, end)|
      ensures rcode == if NoneFails(fails, old(count), count - old(count)) then 0 else 1
    {
      EndInRange(offset0, cnt);
      rcode := WriteRange(c, offset0, (offset0 + cnt) as int % WORD, buffer, Bytes(buffer[..], offset0));
    }

    /** The result after the transfers from `from` to `to`. */
    ghost predicate Status(rcode: int, from: nat, to: nat) {
      from <= to && rcode == if NoneFails(fails, from, to - from) then 0 else 1
    }

    lemma StatusStep(rcode: int, from: nat, to: nat)
      requires Status(rcode, from, to)
      ensures Status(if fails(to) then 1 else rcode, from, to + 1)
    {
      NoneFailsLast(fails, from, to - from);
    }

    /** The buffer holds what is meant from this offset on. */
    static ghost predicate Meets(buffer: array<byte>, start: u32, src: Source)
      reads buffer
    {
      forall i: nat :: i < buffer.Length ==> buffer[i] == src(start + i)
    }

    /** The loop of eeprom_write. */
    method WriteRange(c: Config, offset0: u32, end: u32, buffer: array<byte>, ghost src: Source) returns (rcode: int)
      requires ValidConfig(c) && (offset0 < end ==> end - offset0 <= buffer.Length)
      requires Meets(buffer, offset0, src)
      modifies this
      ensures (cells, count) == Outcome(c, fails, old(cells), old(count), src, offset0, end)
      ensures Status(rcode, old(count), count)
    {
      var offset := offset0;
      rcode := 0;
      while offset < end
        invariant offset0 <= offset && (offset <= end || offset == offset0)
        invariant Outcome(c, fails, cells, count, src, offset, end) ==
          Outcome(c, fails, old(cells), old(count), src, offset0, end)
        invariant Status(rcode, old(count), count)
        decreases end - offset
      {
        rcode, offset := WriteTurn(c, offset0, offset, end, buffer, rcode, src, old(count));
      }
    }

    /** One turn of the loop. */
    method WriteTurn(c: Config, offset0: u32, offset: u32, end: u32, buffer: array<byte>, rcode0: int,
                     ghost src: Source, ghost from: nat)
      returns (rcode: int, next: u32)
      requires ValidConfig(c) && offset0 <= offset < end && end - offset0 <= buffer.Length
      requires Meets(buffer, offset0, src) && Status(rcode0, from, count)
      modifies this
      ensures offset < next <= end && Status(rcode, from, count)
      ensures Outcome(c, fails, cells, count, src, next, end) ==
        Outcome(c, fails, old(cells), old(count), src, offset, end)
    {
      OutcomeStep(c, fails, cells, count, src, offset, end);
      StatusStep(rcode0, from, count);
      var ok, len := WriteNext(c, offset0, offset, end, buffer, src);
      rcode := if ok then rcode0 else 1;
      next := offset + len;
    }

    /** The length and the transfer. */
    method WriteNext(c: Config, offset0: u32, offset: u32, end: u32, buffer: array<byte>, ghost src: Source)
      returns (ok: bool, len: nat)
      requires ValidConfig(c) && offset0 <= offset < end && end - offset0 <= buffer.Length
      requires Meets(buffer, offset0, src)
      modifies this
      ensures len == WriteLength(c, offset, end) && count == old(count) + 1 && ok == !fails(old(count))
      ensures cells == AfterOne(c, fails, old(cells), old(count), src, offset, len)
    {
      var page := Pow2(c.pageBits);
      len := end - offset;
      var maxlen := page - InPage(offset % 0x100, page);
      if maxlen > c.rxtx {
        maxlen := c.rxtx;
      }
      if len > maxlen {
        len := maxlen;
      }
      var from := offset - offset0;
      ok := I2cWrite(c, offset, buffer[from..from + len], src);
    }

    static lemma EndInRange(offset: u32, cnt: u32)
      ensures var end := (offset + cnt) as int % WORD;
        if offset as int + cnt < WORD then end == offset + cnt else end < offset || cnt == 0
    {
    }

    /** The first n bytes of the range have been read; a failed transfer leaves its bytes alone. */
    static ghost predicate ReadSoFar(
        c: Config, cells: Cells, buffer: seq<byte>, before: seq<byte>, offset0: u32, n: nat, ok: bool)
      requires offset0 + n <= WORD
    {
      && |buffer| == |before| && n <= |buffer|
      && (forall i :: n <= i < |buffer| ==> buffer[i] == before[i])
      && forall i :: 0 <= i < n ==>
        buffer[i] == cells(CellOf(c, offset0 + i)) || (!ok && buffer[i] == before[i])
    }

    /** eeprom_read. */
    method EepromRead(c: Config, offset0: u32, buffer: array<byte>, cnt: u32) returns (rcode: int)
      requires ValidConfig(c) && cnt <= buffer.Length
      modifies this`count, buffer
      ensures count == old(count) + |Reads(c, offset0, (offset0 + cnt) as int % WORD)|
      ensures rcode == if NoneFails(fails, old(count), count - old(count)) then 0 else 1
      ensures ReadSoFar(
        c, cells, buffer[..], old(buffer[..]), offset0, if offset0 + cnt < WORD then cnt else 0, rcode == 0)
      ensures rcode == 0 && offset0 + cnt < WORD ==> buffer[..cnt] == Range(c, cells, offset0, cnt)
    {
      var end: u32 := (offset0 + cnt) as int % WORD;
      EndInRange(offset0, cnt);
      var offset := offset0;
      rcode := 0;
      while offset < end
        invariant offset0 <= offset && (offset <= end || offset == offset0)
        invariant count + |Reads(c, offset, end)| == old(count) + |Reads(c, offset0, end)|
        invariant Status(rcode, old(count), count)
        invariant ReadSoFar(c, cells, buffer[..], old(buffer[..]), offset0, offset - offset0, rcode == 0)
        decreases end - offset
      {
        rcode, offset := ReadTurn(c, offset0, offset, end, buffer, rcode, old(count), old(buffer[..]));
      }
    }

    /** One turn of the loop. */
    method ReadTurn(c: Config, offset0: u32, offset: u32, end: u32, buffer: array<byte>, rcode0: int,
                    ghost from: nat, ghost before: seq<byte>)
      returns (rcode: int, next: u32)
      requires ValidConfig(c) && offset0 <= offset < end && end - offset0 <= buffer.Length
      requires Status(rcode0, from, count)
      requires ReadSoFar(c, cells, buffer[..], before, offset0, offset - offset0, rcode0 == 0)
      modifies this`count, buffer
      ensures offset < next <= end && Status(rcode, from, count)
      ensures count + |Reads(c, next, end)| == old(count) + |Reads(c, offset, end)|
      ensures ReadSoFar(c, cells, buffer[..], before, offset0, next - offset0, rcode == 0)
    {
      StatusStep(rcode0, from, count);
      var ok, len := ReadNext(c, offset0, offset, end, buffer);
      rcode := if ok then rcode0 else 1;
      next := offset + len;
    }

    /** The length and the transfer. */
    method ReadNext(c: Config, offset0: u32, offset: u32, end: u32, buffer: array<byte>) returns (ok: bool, len: nat)
      requires ValidConfig(c) && offset0 <= offset < end && end - offset0 <= buffer.Length
      modifies this`count, buffer
      ensures len == ReadLength(c, offset, end) && count == old(count) + 1 && ok == !fails(old(count))
      ensures forall i :: 0 <= i < buffer.Length ==>
        buffer[i] ==
          if ok && offset - offset0 <= i < offset - offset0 + len then cells(CellOf(c, offset0 + i)) else old(buffer[i])
    {
      len := end - offset;
      var maxlen := 0x100 - offset % 0x100;
      if maxlen > c.rxtx {
        maxlen := c.rxtx;
      }
      if len > maxlen {
        len := maxlen;
      }
      ok := I2cRead(c, offset, buffer, offset - offset0, len);
      forall i | 0 <= i < len
        ensures ReadCell(c, offset, i) == CellOf(c, offset + i)
      {
        ReadCellIsFlat(c, offset, i);
      }
    }
  }
}
