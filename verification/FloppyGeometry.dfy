/**
 Block numbers and the places on a floppy disk: the split into track, head and
 sector that fdc_issue_cmd computes, and the data that a run of blocks holds.
 */
module FloppyGeometry {
  import opened Arithmetic

  /** FD_GEO_STRUCT: sectors per track, heads, tracks, sector size code. */
  datatype Geometry = Geometry(sect: nat, head: nat, track: nat, sectCode: nat)

  /** Values that fit the one-byte registers and the one head bit. */
  predicate ValidGeometry(g: Geometry) {
    1 <= g.sect < 256 && 1 <= g.head <= 2 && g.track <= 256
  }

  function Blocks(g: Geometry): nat {
    g.track * (g.sect * g.head)
  }

  /** 0x080 << sect_code */
  function SectorSize(code: nat): nat
    ensures SectorSize(code) > 0
  {
    if code == 0 then 128 else 2 * SectorSize(code - 1)
  }

  lemma {:induction false} SizeIsShift(code: nat)
    ensures SectorSize(code) == 128 * Pow2(code)
  {
    if code > 0 {
      SizeIsShift(code - 1);
    }
  }

  /** Sectors are counted from 1. */
  datatype Place = Place(track: nat, head: nat, sector: nat)

  predicate OnDisk(g: Geometry, p: Place) {
    p.track < g.track && p.head < g.head && 1 <= p.sector <= g.sect
  }

  function Quotient(x: nat, d: nat): nat
    requires d > 0
  {
    x / d
  }

  function Remainder(x: nat, d: nat): nat
    requires d > 0
  {
    x % d
  }

  function Split(g: Geometry, blnr: nat): Place
    requires ValidGeometry(g)
  {
    PositiveProduct(g.sect, g.head);
    var cylinder: nat := g.sect * g.head;
    var (track, rest) := (Quotient(blnr, cylinder), Remainder(blnr, cylinder));
    Place(track, Quotient(rest, g.sect), Remainder(rest, g.sect) + 1)
  }

  function BlockAt(g: Geometry, p: Place): int {
    p.track * (g.sect * g.head) + p.head * g.sect + p.sector - 1
  }

  /** The split loses nothing and stays on the disk. */
  lemma SplitIsOnDisk(g: Geometry, blnr: nat)
    requires ValidGeometry(g)
    ensures BlockAt(g, Split(g, blnr)) == blnr
    ensures Split(g, blnr).head < g.head && 1 <= Split(g, blnr).sector <= g.sect
    ensures blnr < Blocks(g) <==> OnDisk(g, Split(g, blnr))
  {
    var side := g.sect * g.head;
    PositiveProduct(g.sect, g.head);
    var (track, rest) := (blnr / side, blnr % side);
    var head := rest / g.sect;
    assert blnr == track * side + rest;
    assert rest == head * g.sect + rest % g.sect;
    if head >= g.head {
      MulMonotone(g.head, head, g.sect);
      assert false;
    }
    if track < g.track {
      MulMonotone(track + 1, g.track, side);
      assert (track + 1) * side == track * side + side;
    } else {
      MulMonotone(g.track, track, side);
    }
  }

  /** Every place on the disk is the split of its own block number: with
      SplitIsOnDisk the split is a bijection. */
  lemma SplitOfBlockAt(g: Geometry, p: Place)
    requires ValidGeometry(g) && p.head < g.head && 1 <= p.sector <= g.sect
    ensures BlockAt(g, p) >= 0 && Split(g, BlockAt(g, p)) == p
  {
    var side := g.sect * g.head;
    PositiveProduct(g.sect, g.head);
    var rest := p.head * g.sect + (p.sector - 1);
    MulMonotone(p.head + 1, g.head, g.sect);
    assert (p.head + 1) * g.sect == p.head * g.sect + g.sect;
    assert g.head * g.sect == side;
    MulMonotone(0, p.track, side);
    DivModUnique(BlockAt(g, p), side, p.track, rest);
    DivModUnique(rest, g.sect, p.head, p.sector - 1);
  }

  /** Blocks of one track side are consecutive sectors. */
  lemma SplitAlongTrack(g: Geometry, blnr: nat, j: nat)
    requires ValidGeometry(g) && Split(g, blnr).sector + j <= g.sect
    ensures Split(g, blnr + j) == Split(g, blnr).(sector := Split(g, blnr).sector + j)
  {
    SplitIsOnDisk(g, blnr);
    SplitOfBlockAt(g, Split(g, blnr).(sector := Split(g, blnr).sector + j));
  }

  /** How far it is to the end of the track side. */
  lemma RoomOnTrack(g: Geometry, blnr: nat)
    requires ValidGeometry(g)
    ensures g.sect - blnr % g.sect == g.sect - (Split(g, blnr).sector - 1)
  {
    SplitIsOnDisk(g, blnr);
    var p := Split(g, blnr);
    SidesInOrder(p.track, p.head, g.head, g.sect);
    DivModUnique(blnr, g.sect, p.track * g.head + p.head, p.sector - 1);
  }

  lemma SidesInOrder(track: nat, head: nat, heads: nat, sect: nat)
    ensures track * (sect * heads) + head * sect == (track * heads + head) * sect && track * heads >= 0
  {
    MulMonotone(0, track, heads);
    assert track * (sect * heads) == (track * heads) * sect;
  }

  // ------------------------------------------------------------------ data

  type Sector = seq<int>

  /** What stands at every place. */
  type Medium = Place -> Sector

  predicate ValidSector(s: Sector, code: nat) {
    |s| == SectorSize(code)
  }

  /** n blocks from blnr on, one after the other. */
  function Image(g: Geometry, m: Medium, blnr: nat, n: nat): seq<int>
    requires ValidGeometry(g)
  {
    if n == 0 then [] else Image(g, m, blnr, n - 1) + m(Split(g, blnr + n - 1))
  }

  /** n sectors of one track side from p on, as the controller delivers them. */
  function TrackData(m: Medium, p: Place, n: nat): seq<int> {
    if n == 0 then [] else TrackData(m, p, n - 1) + m(p.(sector := p.sector + n - 1))
  }

  lemma {:induction false} TrackIsImage(g: Geometry, m: Medium, blnr: nat, n: nat)
    requires ValidGeometry(g) && Split(g, blnr).sector + n <= g.sect + 1
    ensures TrackData(m, Split(g, blnr), n) == Image(g, m, blnr, n)
  {
    if n > 0 {
      TrackIsImage(g, m, blnr, n - 1);
      SplitAlongTrack(g, blnr, n - 1);
    }
  }

  lemma {:induction false} ImageConcat(g: Geometry, m: Medium, blnr: nat, a: nat, b: nat)
    requires ValidGeometry(g)
    ensures Image(g, m, blnr, a + b) == Image(g, m, blnr, a) + Image(g, m, blnr + a, b)
  {
    if b == 0 {
      assert Image(g, m, blnr, a) + [] == Image(g, m, blnr, a);
    } else {
      ImageConcat(g, m, blnr, a, b - 1);
      assert blnr + (a + b) - 1 == blnr + a + b - 1;
      var last := m(Split(g, blnr + (a + b) - 1));
      assert (Image(g, m, blnr, a) + Image(g, m, blnr + a, b - 1)) + last ==
        Image(g, m, blnr, a) + (Image(g, m, blnr + a, b - 1) + last);
    }
  }

  lemma {:induction false} ImageLength(g: Geometry, m: Medium, blnr: nat, n: nat)
    requires ValidGeometry(g) && forall p :: ValidSector(m(p), g.sectCode)
    ensures |Image(g, m, blnr, n)| == n * SectorSize(g.sectCode)
  {
    if n > 0 {
      ImageLength(g, m, blnr, n - 1);
      assert ValidSector(m(Split(g, blnr + n - 1)), g.sectCode);
      assert n * SectorSize(g.sectCode) == (n - 1) * SectorSize(g.sectCode) + SectorSize(g.sectCode);
    }
  }

  lemma {:induction false} TrackLength(m: Medium, p: Place, n: nat, code: nat)
    requires forall q :: ValidSector(m(q), code)
    ensures |TrackData(m, p, n)| == n * SectorSize(code)
  {
    if n > 0 {
      TrackLength(m, p, n - 1, code);
      assert ValidSector(m(p.(sector := p.sector + n - 1)), code);
      assert n * SectorSize(code) == (n - 1) * SectorSize(code) + SectorSize(code);
    }
  }

  /** The blocks one command may read: to the end of the track side at most. */
  function Chunk(g: Geometry, blnr: nat, left: nat): (n: nat)
    requires ValidGeometry(g)
    ensures n <= left && (left > 0 ==> n > 0)
  {
    if g.sect - blnr % g.sect > left then left else g.sect - blnr % g.sect
  }

  /** A chunk that does not finish the read ends with its track side, so the next
      one may take a whole side. */
  lemma NextSide(g: Geometry, blnr: nat, left: nat)
    requires ValidGeometry(g) && Chunk(g, blnr, left) < left
    ensures var n := Chunk(g, blnr, left);
      Chunk(g, blnr + n, left - n) == if g.sect > left - n then left - n else g.sect
  {
    var n := Chunk(g, blnr, left);
    var q := blnr / g.sect;
    assert blnr + n == (q + 1) * g.sect + 0;
    DivModUnique(blnr + n, g.sect, q + 1, 0);
  }
}
