/**
 The check of a flash partition against its device: 32-bit range arithmetic and
 the search for erase-block boundaries on uniform and non-uniform chips.
 */
module MtdValidate {
  import opened Arithmetic
  import opened Machine
  import opened Wrappers

  const SIZE_REMAINING := 0xFFFF_FFFF

  datatype Region = Region(offset: nat, erasesize: nat, numblocks: nat)

  /** mtd_info: `regions` is empty for chips with a single erase size. */
  datatype Chip = Chip(erasesize: nat, regions: seq<Region>)

  // ---------------------------------------------------------------- range

  /** The size after "all remaining space" has been replaced. */
  function EffectiveSize(flash: u32, offset: u32, size: u32): u32 {
    if size == SIZE_REMAINING then (flash - offset) % WORD else size
  }

  /** A partition that takes what remains ends where the flash does; any other keeps its size. */
  lemma EffectiveExact(flash: u32, offset: u32, size: u32)
    ensures size != SIZE_REMAINING ==> EffectiveSize(flash, offset, size) == size
    ensures size == SIZE_REMAINING && offset <= flash ==>
      offset as int + EffectiveSize(flash, offset, size) == flash
  {
  }

  /** The three tests of part_validate, in 32-bit arithmetic. */
  predicate RangeTests(flash: u32, offset: u32, size: u32) {
    var end := (offset + size) as int % WORD;
    !(offset > flash) && !(end <= offset) && !(end > flash)
  }

  /** The tests accept exactly the non-empty ranges inside the flash; no sum
      that wraps gets through. */
  lemma RangeExact(flash: u32, offset: u32, size: u32)
    ensures RangeTests(flash, offset, size) <==> 0 < size && offset as int + size <= flash
  {
    var sum: int := offset as int + size;
    if sum >= WORD {
      assert sum % WORD == sum - WORD;
    } else {
      assert sum % WORD == sum;
    }
  }

  // ----------------------------------------------------------- erase blocks

  /** n erase blocks. */
  function Span(erasesize: nat, n: nat): nat {
    if n == 0 then 0 else Span(erasesize, n - 1) + erasesize
  }

  function BlockStart(r: Region, j: nat): nat {
    r.offset + Span(r.erasesize, j)
  }

  /** The search of part_validate_eraseblock: the address is computed in 32 bits. */
  predicate OnStart(regions: seq<Region>, a: int) {
    exists i, j :: 0 <= i < |regions| && 0 <= j < regions[i].numblocks && BlockStart(regions[i], j) % WORD == a
  }

  /** Where the search stands when it has found nothing. */
  function SearchEnd(regions: seq<Region>): int
    requires regions != []
  {
    var r := regions[|regions| - 1];
    BlockStart(r, r.numblocks) % WORD
  }

  predicate AlignmentTests(chip: Chip, offset: u32, size: u32)
    requires chip.erasesize > 0
  {
    var end := (offset + size) as int % WORD;
    if chip.regions == [] then offset as int % chip.erasesize == 0 && size as int % chip.erasesize == 0
    else OnStart(chip.regions, offset) && (OnStart(chip.regions, end) || end == SearchEnd(chip.regions))
  }

  /** part_validate with the size already effective; `chip` is None when no
      driver knows the device. */
  predicate Accepts(flash: u32, chip: Option<Chip>, offset: u32, size: u32)
    requires chip.Some? ==> chip.value.erasesize > 0
  {
    RangeTests(flash, offset, size) && chip.Some? && AlignmentTests(chip.value, offset, size)
  }

  // ------------------------------------------- regions that tile the device

  function Starts(r: Region, n: nat): seq<nat> {
    if n == 0 then [] else Starts(r, n - 1) + [BlockStart(r, n - 1)]
  }

  function AllStarts(regions: seq<Region>): seq<nat> {
    var last := |regions| - 1;
    if regions == [] then [] else AllStarts(regions[..last]) + Starts(regions[last], regions[last].numblocks)
  }

  function TiledEnd(regions: seq<Region>): nat {
    if regions == [] then 0 else BlockStart(regions[|regions| - 1], regions[|regions| - 1].numblocks)
  }

  /** The regions follow one another from address 0. */
  ghost predicate Tiled(regions: seq<Region>) {
    regions == [] ||
    (var last := |regions| - 1;
     Tiled(regions[..last]) && regions[last].erasesize > 0 && regions[last].offset == TiledEnd(regions[..last]))
  }

  /** All block boundaries of the device. */
  function Edges(regions: seq<Region>): seq<nat> {
    AllStarts(regions) + [TiledEnd(regions)]
  }

  ghost predicate Ascending(s: seq<nat>) {
    forall i, j :: 0 <= i < j < |s| ==> s[i] < s[j]
  }

  lemma {:induction false} StartsAscend(r: Region, n: nat)
    requires r.erasesize > 0
    ensures |Starts(r, n)| == n && Ascending(Starts(r, n) + [BlockStart(r, n)])
    ensures forall j :: 0 <= j < n ==> Starts(r, n)[j] == BlockStart(r, j)
    ensures forall j :: 0 <= j < n ==> r.offset <= Starts(r, n)[j]
    ensures r.offset <= BlockStart(r, n)
  {
    if n > 0 {
      StartsAscend(r, n - 1);
      AscendingLast(Starts(r, n), BlockStart(r, n));
    }
  }

  lemma AscendingLast(s: seq<nat>, last: nat)
    requires s != [] && Ascending(s) && s[|s| - 1] < last
    ensures Ascending(s + [last])
  {
    assert forall i :: 0 <= i < |s| - 1 ==> s[i] < s[|s| - 1];
  }

  lemma {:induction false} EdgesAscend(regions: seq<Region>)
    requires Tiled(regions)
    ensures Ascending(Edges(regions))
  {
    if regions != [] {
      var last := |regions| - 1;
      EdgesAscend(regions[..last]);
      StartsAscend(regions[last], regions[last].numblocks);
      var front := AllStarts(regions[..last]);
      var back := Starts(regions[last], regions[last].numblocks) + [TiledEnd(regions)];
      AscendingJoin(front, back);
      assert Edges(regions) == front + back;
    }
  }

  /** Two ascending lists that share the element where they meet. */
  lemma AscendingJoin(front: seq<nat>, back: seq<nat>)
    requires back != [] && Ascending(front + [back[0]]) && Ascending(back)
    ensures Ascending(front + back)
  {
    forall i, j | 0 <= i < j < |front + back|
      ensures (front + back)[i] < (front + back)[j]
    {
      if i < |front| {
        assert (front + [back[0]])[i] < (front + [back[0]])[|front|];
        if j < |front| {
          assert (front + [back[0]])[i] < (front + [back[0]])[j];
        }
      }
    }
  }

  lemma {:induction false} StartIsBlock(regions: seq<Region>, a: nat) returns (i: nat, j: nat)
    requires a in AllStarts(regions)
    requires forall k :: 0 <= k < |regions| ==> regions[k].erasesize > 0
    ensures i < |regions| && j < regions[i].numblocks && BlockStart(regions[i], j) == a
  {
    var last := |regions| - 1;
    StartsAscend(regions[last], regions[last].numblocks);
    if a in AllStarts(regions[..last]) {
      i, j := StartIsBlock(regions[..last], a);
    } else {
      i := last;
      j :| 0 <= j < regions[last].numblocks && Starts(regions[last], regions[last].numblocks)[j] == a;
    }
  }

  lemma {:induction false} BlockIsStart(regions: seq<Region>, i: nat, j: nat)
    requires i < |regions| && j < regions[i].numblocks
    requires forall k :: 0 <= k < |regions| ==> regions[k].erasesize > 0
    ensures BlockStart(regions[i], j) in AllStarts(regions)
  {
    var last := |regions| - 1;
    if i < last {
      BlockIsStart(regions[..last], i, j);
    } else {
      StartsAscend(regions[last], regions[last].numblocks);
      assert Starts(regions[last], regions[last].numblocks)[j] in Starts(regions[last], regions[last].numblocks);
    }
  }

  lemma {:induction false} TiledSizes(regions: seq<Region>)
    requires Tiled(regions)
    ensures forall k :: 0 <= k < |regions| ==> regions[k].erasesize > 0
  {
    if regions != [] {
      TiledSizes(regions[..|regions| - 1]);
    }
  }

  lemma {:induction false} BlockBelowEnd(regions: seq<Region>, i: nat, j: nat)
    requires Tiled(regions) && i < |regions| && j <= regions[i].numblocks
    ensures BlockStart(regions[i], j) <= TiledEnd(regions)
  {
    var last := |regions| - 1;
    if i < last {
      BlockBelowEnd(regions[..last], i, j);
      StartsAscend(regions[last], regions[last].numblocks);
    } else {
      SpanMonotone(regions[i].erasesize, j, regions[i].numblocks);
    }
  }

  lemma {:induction false} SpanMonotone(e: nat, m: nat, n: nat)
    requires m <= n
    ensures Span(e, m) <= Span(e, n)
  {
    if m < n {
      SpanMonotone(e, m, n - 1);
    }
  }

  lemma NoWrap(regions: seq<Region>, i: nat, j: nat)
    requires Tiled(regions) && TiledEnd(regions) < WORD && i < |regions| && j < regions[i].numblocks
    ensures BlockStart(regions[i], j) % WORD == BlockStart(regions[i], j)
  {
    BlockBelowEnd(regions, i, j);
  }

  lemma OnStartIsStart(regions: seq<Region>, a: nat)
    requires Tiled(regions) && TiledEnd(regions) < WORD
    ensures OnStart(regions, a) <==> a in AllStarts(regions)
  {
    TiledSizes(regions);
    if a in AllStarts(regions) {
      var i, j := StartIsBlock(regions, a);
      NoWrap(regions, i, j);
    }
    if OnStart(regions, a) {
      var i, j :| 0 <= i < |regions| && 0 <= j < regions[i].numblocks && BlockStart(regions[i], j) % WORD == a;
      NoWrap(regions, i, j);
      BlockIsStart(regions, i, j);
    }
  }

  /** From one block boundary to a later one. */
  ghost predicate RunOfBlocks(edges: seq<nat>, from: int, to: int) {
    exists a, b :: 0 <= a < b < |edges| && edges[a] == from && edges[b] == to
  }

  /** For any regions that tile the device, a partition is accepted exactly when
      it is a run of at least one whole erase block. */
  lemma TiledExact(flash: u32, chip: Chip, offset: u32, size: u32)
    requires chip.erasesize > 0 && chip.regions != [] && Tiled(chip.regions) && TiledEnd(chip.regions) == flash
    ensures Accepts(flash, Some(chip), offset, size) <==>
      RunOfBlocks(Edges(chip.regions), offset, offset as int + size)
  {
    RangeExact(flash, offset, size);
    if offset as int + size <= flash {
      TestsInside(flash, chip, offset, size);
      OnStartIsStart(chip.regions, offset);
      OnStartIsStart(chip.regions, offset as int + size);
      TestsAreEdges(chip.regions, offset, size);
    } else {
      EdgesBelowEnd(chip.regions);
    }
  }

  lemma TestsInside(flash: u32, chip: Chip, offset: u32, size: u32)
    requires chip.erasesize > 0 && chip.regions != [] && offset as int + size <= flash
    ensures Accepts(flash, Some(chip), offset, size) <==>
      var end: int := offset as int + size;
      size > 0 && OnStart(chip.regions, offset) && (OnStart(chip.regions, end) || end == SearchEnd(chip.regions))
  {
    RangeExact(flash, offset, size);
    var end: int := offset as int + size;
    assert end % WORD == end;
  }

  lemma EdgesBelowEnd(regions: seq<Region>)
    requires Tiled(regions)
    ensures forall k :: 0 <= k < |Edges(regions)| ==> Edges(regions)[k] <= TiledEnd(regions)
  {
    EdgesAscend(regions);
    assert Edges(regions)[|AllStarts(regions)|] == TiledEnd(regions);
  }

  lemma TestsAreEdges(regions: seq<Region>, offset: nat, size: nat)
    requires Tiled(regions) && offset + size <= TiledEnd(regions)
    ensures
      && size > 0 && offset in AllStarts(regions)
      && (offset + size in AllStarts(regions) || offset + size == TiledEnd(regions))
      <==> RunOfBlocks(Edges(regions), offset, offset + size)
  {
    var edges, starts := Edges(regions), AllStarts(regions);
    EdgesAscend(regions);
    assert edges[|starts|] == TiledEnd(regions);
    assert forall k :: 0 <= k < |starts| ==> edges[k] == starts[k];
    if size > 0 && offset in starts && (offset + size in starts || offset + size == TiledEnd(regions)) {
      var a :| 0 <= a < |starts| && starts[a] == offset;
      assert offset + size in edges;
      var b :| 0 <= b < |edges| && edges[b] == offset + size;
      assert edges[a] == offset && a < b;
    }
  }

  /** A run of at least one erase block of size e. */
  ghost predicate WholeBlocks(e: nat, from: int, to: int) {
    exists a: nat, b: nat {:trigger Multiple(a, e), Multiple(b, e)} ::
      a < b && from == Multiple(a, e) && to == Multiple(b, e)
  }

  lemma RunIsAligned(e: nat, a: nat, b: nat, offset: nat, size: nat)
    requires e > 0 && a < b && offset == Multiple(a, e) && offset + size == Multiple(b, e)
    ensures offset % e == 0 && size % e == 0 && size > 0
  {
    Distribute(a, b - a, e);
    MulMonotone(1, b - a, e);
    DivModUnique(offset, e, a, 0);
    DivModUnique(size, e, b - a, 0);
  }

  lemma AlignedIsRun(e: nat, offset: nat, size: nat)
    requires e > 0 && offset % e == 0 && size % e == 0 && size > 0
    ensures WholeBlocks(e, offset, offset + size)
  {
    var a, n := offset / e, size / e;
    Distribute(a, n, e);
    assert offset == Multiple(a, e) && size == Multiple(n, e);
    assert n > 0;
    assert offset + size == Multiple(a + n, e);
  }

  /** The same for chips with one erase size. */
  lemma UniformExact(flash: u32, chip: Chip, offset: u32, size: u32)
    requires chip.erasesize > 0 && chip.regions == []
    ensures Accepts(flash, Some(chip), offset, size) <==>
      offset as int + size <= flash && WholeBlocks(chip.erasesize, offset, offset as int + size)
  {
    RangeExact(flash, offset, size);
    if Accepts(flash, Some(chip), offset, size) {
      AlignedIsRun(chip.erasesize, offset, size);
    }
    if WholeBlocks(chip.erasesize, offset, offset as int + size) {
      var a: nat, b: nat {:trigger Multiple(a, chip.erasesize), Multiple(b, chip.erasesize)} :|
        a < b && offset == Multiple(a, chip.erasesize) && offset as int + size == Multiple(b, chip.erasesize);
      RunIsAligned(chip.erasesize, a, b, offset, size);
    }
  }

  function Multiple(n: nat, e: nat): nat {
    n * e
  }

  lemma Distribute(a: nat, b: nat, e: nat)
    ensures Multiple(a + b, e) == Multiple(a, e) + Multiple(b, e)
  {
  }

  // ------------------------------------------------------------- the search

  /** The nested loops of part_validate_eraseblock; `start` is left at the last
      address looked at when nothing matches. */
  method Search(regions: seq<Region>, target: int) returns (found: bool, start: int)
    requires regions != []
    ensures found == OnStart(regions, target)
    ensures !found ==> start == SearchEnd(regions)
  {
    start := 0;
    for i := 0 to |regions|
      invariant forall k, l :: 0 <= k < i && 0 <= l < regions[k].numblocks ==>
        BlockStart(regions[k], l) % WORD != target
      invariant i > 0 ==> start == BlockStart(regions[i - 1], regions[i - 1].numblocks) % WORD
    {
      start := regions[i].offset % WORD;
      for j := 0 to regions[i].numblocks
        invariant start == BlockStart(regions[i], j) % WORD
        invariant forall l :: 0 <= l < j ==> BlockStart(regions[i], l) % WORD != target
      {
        if start == target {
          return true, start;
        }
        StepWraps(BlockStart(regions[i], j), regions[i].erasesize);
        start := (start + regions[i].erasesize) % WORD;
      }
    }
    found := false;
  }

  lemma StepWraps(x: nat, y: nat)
    ensures (x % WORD + y) % WORD == (x + y) % WORD
  {
  }

  /** part_validate: the verdict and the size that is stored in the partition. */
  method PartValidate(flash: u32, chip: Option<Chip>, offset: u32, size0: u32) returns (ok: bool, size: u32)
    requires chip.Some? ==> chip.value.erasesize > 0
    ensures size == EffectiveSize(flash, offset, size0)
    ensures size0 != SIZE_REMAINING ==> size == size0
    ensures size0 == SIZE_REMAINING && offset <= flash ==> offset as int + size == flash
    ensures ok == Accepts(flash, chip, offset, size)
  {
    size := size0;
    if size == SIZE_REMAINING {
      size := (flash - offset) % WORD;
    }
    if offset > flash {
      return false, size;
    }
    var end := (offset as int + size) % WORD;
    if end <= offset || end > flash {
      return false, size;
    }
    match chip {
      case None => return false, size;
      case Some(mtd) =>
        if mtd.regions == [] {
          return offset as int % mtd.erasesize == 0 && size as int % mtd.erasesize == 0, size;
        }
        var startOk, _ := Search(mtd.regions, offset);
        if !startOk {
          return false, size;
        }
        var endOk, start := Search(mtd.regions, end);
        return endOk || end == start, size;
    }
  }
}
