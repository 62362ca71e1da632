/**
 OneNAND reading and writing around bad blocks. Offsets and lengths are counted
 in erase blocks: the commands work on whole, aligned blocks.
 */
module OneNand {

  type Block = seq<int>

  /** Where a block cannot be used: marked bad, or the driver reports an error. */
  datatype Faults = Faults(bad: nat -> bool, writeFails: nat -> bool, readFails: nat -> bool) {
    predicate Writable(k: nat) {
      !bad(k) && !writeFails(k)
    }

    predicate Readable(k: nat) {
      !bad(k) && !readFails(k)
    }
  }

  /** The chip, and the two variables that survive a write command. */
  datatype State = State(flash: seq<Block>, nextOfs: int, skipOfs: int)

  /** Consecutive blocks of `buf` go to the writable blocks from p on; the answer
      is the flash and the position behind the last block written. */
  function Place(fs: Faults, flash: seq<Block>, p: nat, buf: seq<Block>): (seq<Block>, nat)
    decreases |flash| - p
  {
    if buf == [] || p >= |flash| then (flash, p)
    else if !fs.Writable(p) then Place(fs, flash, p + 1, buf)
    else Place(fs, flash[p := buf[0]], p + 1, buf[1..])
  }

  /** The physical start of a write at logical offset `to`. */
  function PhysicalStart(s: State, to: int): int {
    if to == s.nextOfs then to + s.skipOfs else to
  }

  function Write(fs: Faults, s: State, to: int, buf: seq<Block>): State
    requires 0 <= PhysicalStart(s, to)
  {
    var (flash, pos) := Place(fs, s.flash, PhysicalStart(s, to), buf);
    State(flash, to + |buf|, pos - (to + |buf|))
  }

  /** The first n readable blocks from p on. */
  function Read(fs: Faults, flash: seq<Block>, p: nat, n: nat): seq<Block>
    decreases |flash| - p
  {
    if n == 0 || p >= |flash| then []
    else if !fs.Readable(p) then Read(fs, flash, p + 1, n)
    else [flash[p]] + Read(fs, flash, p + 1, n - 1)
  }

  /** The writable blocks among p, ..., end - 1 in ascending order. */
  function Good(fs: Faults, p: nat, end: nat): seq<nat>
    decreases end - p
  {
    if p >= end then []
    else if fs.Writable(p) then [p] + Good(fs, p + 1, end)
    else Good(fs, p + 1, end)
  }

  lemma {:induction false} GoodBounds(fs: Faults, p: nat, end: nat)
    ensures forall i :: 0 <= i < |Good(fs, p, end)| ==> p <= Good(fs, p, end)[i] < end
    ensures forall i, j :: 0 <= i < j < |Good(fs, p, end)| ==> Good(fs, p, end)[i] < Good(fs, p, end)[j]
    decreases end - p
  {
    if p < end {
      GoodBounds(fs, p + 1, end);
    }
  }

  /** Block i of the buffer stands in the i-th good block from p on; the rest of the flash is
      as it was. */
  ghost predicate StoredFrom(fs: Faults, before: seq<Block>, after: seq<Block>, p: nat, buf: seq<Block>) {
    var good := Good(fs, p, |before|);
    && |after| == |before| && |buf| <= |good|
    && (forall i :: 0 <= i < |buf| ==> 0 <= good[i] < |after| && after[good[i]] == buf[i])
    && (forall k :: 0 <= k < |before| && k !in good[..|buf|] ==> after[k] == before[k])
  }

  /** Block i of the buffer stands in the i-th good block, and nothing else of
      the flash has changed; the position is right behind the last one. */
  lemma {:induction false} PlaceMeaning(fs: Faults, flash: seq<Block>, p: nat, buf: seq<Block>)
    requires |buf| <= |Good(fs, p, |flash|)|
    ensures var (flash', pos) := Place(fs, flash, p, buf);
      var good := Good(fs, p, |flash|);
      && StoredFrom(fs, flash, flash', p, buf)
      && pos == if buf == [] then p else good[|buf| - 1] + 1
    decreases |flash| - p
  {
    if buf != [] {
      if fs.Writable(p) {
        var flash1 := flash[p := buf[0]];
        PlaceMeaning(fs, flash1, p + 1, buf[1..]);
        StoredFirst(fs, flash, Place(fs, flash, p, buf).0, p, buf);
      } else {
        PlaceMeaning(fs, flash, p + 1, buf);
      }
    }
  }

  /** One block in front of those stored behind it. */
  lemma StoredFirst(fs: Faults, before: seq<Block>, after: seq<Block>, p: nat, buf: seq<Block>)
    requires p < |before| && fs.Writable(p) && buf != []
    requires StoredFrom(fs, before[p := buf[0]], after, p + 1, buf[1..])
    ensures StoredFrom(fs, before, after, p, buf)
  {
    var good, rest := Good(fs, p, |before|), Good(fs, p + 1, |before|);
    GoodBounds(fs, p + 1, |before|);
    assert good == [p] + rest && good[..|buf|] == [p] + rest[..|buf| - 1];
    assert p !in rest[..|buf| - 1];
    forall i | 0 <= i < |buf|
      ensures 0 <= good[i] < |after| && after[good[i]] == buf[i]
    {
      if i > 0 {
        assert good[i] == rest[i - 1] && buf[i] == buf[1..][i - 1];
      }
    }
  }

  /** Writing a and then, behind it, b is writing a + b. */
  lemma {:induction false} PlaceConcat(fs: Faults, flash: seq<Block>, p: nat, a: seq<Block>, b: seq<Block>)
    ensures var (flash', p') := Place(fs, flash, p, a);
      Place(fs, flash', p', b) == Place(fs, flash, p, a + b)
    decreases |flash| - p
  {
    if a == [] {
      assert a + b == b;
    } else if p < |flash| {
      if !fs.Writable(p) {
        PlaceConcat(fs, flash, p + 1, a, b);
      } else {
        assert (a + b)[1..] == a[1..] + b;
        PlaceConcat(fs, flash[p := a[0]], p + 1, a[1..], b);
      }
    }
  }

  lemma {:induction false} PlaceAdvances(fs: Faults, flash: seq<Block>, p: nat, buf: seq<Block>)
    ensures p <= Place(fs, flash, p, buf).1
    decreases |flash| - p
  {
    if buf != [] && p < |flash| {
      PlaceAdvances(fs, if fs.Writable(p) then flash[p := buf[0]] else flash, p + 1,
                    if fs.Writable(p) then buf[1..] else buf);
    }
  }

  /** The command level: a write that starts where the last one logically ended
      continues it, wherever the bad blocks are. */
  lemma WriteContinues(fs: Faults, s: State, to: int, a: seq<Block>, b: seq<Block>)
    requires 0 <= PhysicalStart(s, to)
    ensures var s1 := Write(fs, s, to, a);
      && 0 <= PhysicalStart(s1, to + |a|)
      && Write(fs, s1, to + |a|, b) == Write(fs, s, to, a + b)
  {
    PlaceConcat(fs, s.flash, PhysicalStart(s, to), a, b);
    PlaceAdvances(fs, s.flash, PhysicalStart(s, to), a);
  }

  /** A write anywhere else starts at its own offset, whatever had been skipped before. */
  lemma WriteElsewhere(fs: Faults, s: State, to: nat, buf: seq<Block>)
    requires to != s.nextOfs && |buf| <= |Good(fs, to, |s.flash|)|
    ensures StoredFrom(fs, s.flash, Write(fs, s, to, buf).flash, to, buf)
  {
    PlaceMeaning(fs, s.flash, to, buf);
  }

  /** A write where the last one logically ended starts so many blocks later as had been skipped. */
  lemma WriteAtNext(fs: Faults, s: State, buf: seq<Block>)
    requires 0 <= s.nextOfs + s.skipOfs && |buf| <= |Good(fs, s.nextOfs + s.skipOfs, |s.flash|)|
    ensures StoredFrom(fs, s.flash, Write(fs, s, s.nextOfs, buf).flash, s.nextOfs + s.skipOfs, buf)
  {
    PlaceMeaning(fs, s.flash, s.nextOfs + s.skipOfs, buf);
  }

  function Concat(bufs: seq<seq<Block>>): seq<Block> {
    if bufs == [] then [] else Concat(bufs[..|bufs| - 1]) + bufs[|bufs| - 1]
  }

  /** A run of write commands, each starting where the previous one logically
      ended; only the first one has a start of its own. */
  function WriteRun(fs: Faults, s: State, to: int, bufs: seq<seq<Block>>): State
    requires 0 <= PhysicalStart(s, to)
  {
    if bufs == [] then s
    else
      var before := WriteRun(fs, s, to, bufs[..|bufs| - 1]);
      var at := to + |Concat(bufs[..|bufs| - 1])|;
      if 0 <= PhysicalStart(before, at) then Write(fs, before, at, bufs[|bufs| - 1]) else before
  }

  /** Any run of writes is one write of the concatenated buffers. */
  lemma {:induction false} WriteRunIsOneWrite(fs: Faults, s: State, to: int, bufs: seq<seq<Block>>)
    requires 0 <= PhysicalStart(s, to) && bufs != []
    ensures WriteRun(fs, s, to, bufs) == Write(fs, s, to, Concat(bufs))
  {
    var last := |bufs| - 1;
    if last == 0 {
      assert bufs[..0] == [] && Concat(bufs) == bufs[0];
    } else {
      WriteRunIsOneWrite(fs, s, to, bufs[..last]);
      WriteContinues(fs, s, to, Concat(bufs[..last]), bufs[last]);
    }
  }

  /** Where reading and writing find the same blocks usable. */
  ghost predicate Agree(fs: Faults, p: nat, end: nat) {
    forall k :: p <= k < end ==> fs.Readable(k) == fs.Writable(k)
  }

  /** Reading skips exactly what writing skipped, as far as the two agree. */
  lemma {:induction false} ReadIsGood(fs: Faults, flash: seq<Block>, p: nat, n: nat, end: nat)
    requires end <= |flash| && Agree(fs, p, end) && (end == |flash| || n <= |Good(fs, p, end)|)
    ensures var good := Good(fs, p, end);
      var m := if n <= |good| then n else |good|;
      && |Read(fs, flash, p, n)| == m
      && forall i :: 0 <= i < m ==> 0 <= good[i] < |flash| && Read(fs, flash, p, n)[i] == flash[good[i]]
    decreases |flash| - p
  {
    GoodBounds(fs, p, end);
    if n > 0 && p < end {
      ReadIsGood(fs, flash, p + 1, if fs.Readable(p) then n - 1 else n, end);
    }
  }

  /** The blocks among p, ..., end - 1 that are neither bad nor refuse to be read. */
  function Legible(fs: Faults, p: nat, end: nat): seq<nat>
    decreases end - p
  {
    if p >= end then []
    else (if !fs.bad(p) && !fs.readFails(p) then [p] else []) + Legible(fs, p + 1, end)
  }

  /** A read returns the first n of them, in order, or all when there are fewer. */
  lemma {:induction false} ReadTakesLegible(fs: Faults, flash: seq<Block>, p: nat, n: nat)
    ensures var legible, read := Legible(fs, p, |flash|), Read(fs, flash, p, n);
      && |read| == (if n <= |legible| then n else |legible|)
      && forall i :: 0 <= i < |read| ==> p <= legible[i] < |flash| && read[i] == flash[legible[i]]
    decreases |flash| - p
  {
    if n > 0 && p < |flash| {
      var usable := !fs.bad(p) && !fs.readFails(p);
      ReadTakesLegible(fs, flash, p + 1, if usable then n - 1 else n);
    }
  }

  /** The good blocks up to a point are the first ones. */
  lemma {:induction false} GoodPrefix(fs: Faults, p: nat, mid: nat, end: nat)
    requires p <= mid <= end
    ensures Good(fs, p, end) == Good(fs, p, mid) + Good(fs, mid, end)
    decreases mid - p
  {
    if p < mid {
      GoodPrefix(fs, p + 1, mid, end);
    }
  }

  /** The position behind the n-th good block. */
  function Behind(fs: Faults, p: nat, n: nat, size: nat): (end: nat)
    requires n <= |Good(fs, p, size)|
  {
    if n == 0 then p else Good(fs, p, size)[n - 1] + 1
  }

  lemma {:induction false} GoodBehind(fs: Faults, p: nat, n: nat, size: nat)
    requires n <= |Good(fs, p, size)| && p <= size
    ensures p <= Behind(fs, p, n, size) <= size
    ensures Good(fs, p, Behind(fs, p, n, size)) == Good(fs, p, size)[..n]
    decreases size - p
  {
    if n > 0 {
      GoodBounds(fs, p, size);
      if fs.Writable(p) {
        var rest := Good(fs, p + 1, size);
        assert Good(fs, p, size) == [p] + rest;
        GoodBehind(fs, p + 1, n - 1, size);
        assert Behind(fs, p + 1, n - 1, size) == Behind(fs, p, n, size);
        assert Good(fs, p, size)[..n] == [p] + rest[..n - 1];
      } else {
        GoodBehind(fs, p + 1, n, size);
      }
    }
  }

  /** Main theorem: one read of the total length returns what any run of writes
      stored, if writing and reading agree on the blocks up to the last one written
      and the chip has enough good blocks. */
  lemma ReadBackRun(fs: Faults, s: State, to: nat, bufs: seq<seq<Block>>)
    requires bufs != [] && PhysicalStart(s, to) == to && to <= |s.flash|
    requires |Concat(bufs)| <= |Good(fs, to, |s.flash|)|
    requires Agree(fs, to, Behind(fs, to, |Concat(bufs)|, |s.flash|))
    ensures Read(fs, WriteRun(fs, s, to, bufs).flash, to, |Concat(bufs)|) == Concat(bufs)
  {
    WriteRunIsOneWrite(fs, s, to, bufs);
    ReadsBack(fs, s.flash, to, Concat(bufs));
  }

  lemma ReadsBack(fs: Faults, flash: seq<Block>, to: nat, buf: seq<Block>)
    requires to <= |flash| && |buf| <= |Good(fs, to, |flash|)|
    requires Agree(fs, to, Behind(fs, to, |buf|, |flash|))
    ensures Read(fs, Place(fs, flash, to, buf).0, to, |buf|) == buf
  {
    var end := Behind(fs, to, |buf|, |flash|);
    PlaceMeaning(fs, flash, to, buf);
    GoodBehind(fs, to, |buf|, |flash|);
    ReadIsGood(fs, Place(fs, flash, to, buf).0, to, |buf|, end);
  }

  // --------------------------------------------- exactly when it reads back

  /** More than what any of these blocks begins with. */
  function Top(blocks: seq<Block>): (m: int)
    ensures forall k :: 0 <= k < |blocks| && blocks[k] != [] ==> blocks[k][0] < m
  {
    if blocks == [] then 0
    else
      var m, last := Top(blocks[..|blocks| - 1]), blocks[|blocks| - 1];
      if last != [] && m <= last[0] then last[0] + 1 else m
  }

  /** n blocks of the given size: the i-th one is not in the flash and unlike the
      others. */
  function Revealing(flash: seq<Block>, size: nat, n: nat, i: nat): (buf: seq<Block>)
    requires size > 0
    ensures |buf| == n && Sized(buf, size)
    ensures forall j :: 0 <= j < n ==> buf[j][0] == if j == i then Top(flash) else Top(flash) + 1
  {
    seq(n, j => seq(size, b => if j == i then Top(flash) else Top(flash) + 1))
  }

  predicate Sized(buf: seq<Block>, size: nat) {
    forall j :: 0 <= j < |buf| ==> |buf[j]| == size
  }

  /** As far as writing and reading agree, reading takes the good blocks; then it goes
      on behind them. */
  lemma {:induction false} ReadSplits(fs: Faults, flash: seq<Block>, p: nat, mid: nat, n: nat)
    requires p <= mid <= |flash| && Agree(fs, p, mid) && |Good(fs, p, mid)| <= n
    ensures Read(fs, flash, p, n) ==
      seq(|Good(fs, p, mid)|, i requires 0 <= i < |Good(fs, p, mid)| => Fetch(flash, Good(fs, p, mid)[i])) +
      Read(fs, flash, mid, n - |Good(fs, p, mid)|)
    decreases mid - p
  {
    if p < mid {
      ReadSplits(fs, flash, p + 1, mid, if fs.Readable(p) then n - 1 else n);
    }
  }

  function Fetch(flash: seq<Block>, k: nat): Block {
    if k < |flash| then flash[k] else []
  }

  /** What a read returns first is one of the readable blocks from p on. */
  lemma {:induction false} ReadHead(fs: Faults, flash: seq<Block>, p: nat, n: nat)
    requires n > 0
    ensures Read(fs, flash, p, n) != [] ==>
      exists k :: p <= k < |flash| && fs.Readable(k) && Read(fs, flash, p, n)[0] == flash[k]
    decreases |flash| - p
  {
    if p < |flash| && !fs.Readable(p) {
      ReadHead(fs, flash, p + 1, n);
    }
  }

  lemma FirstDifference(fs: Faults, p: nat, end: nat) returns (k: nat)
    requires !Agree(fs, p, end)
    ensures p <= k < end && Agree(fs, p, k) && fs.Readable(k) != fs.Writable(k)
    decreases end - p
  {
    if fs.Readable(p) != fs.Writable(p) {
      k := p;
    } else {
      k := FirstDifference(fs, p + 1, end);
    }
  }

  /** Behind the position k there is still one of the n good blocks. */
  lemma LastIsGood(fs: Faults, p: nat, n: nat, size: nat, k: nat)
    requires p <= size && n <= |Good(fs, p, size)| && p <= k < Behind(fs, p, n, size)
    ensures |Good(fs, p, k)| < n
  {
    GoodBehind(fs, p, n, size);
    var end := Behind(fs, p, n, size);
    GoodPrefix(fs, p, k, end);
    assert fs.Writable(end - 1) by {
      GoodAreWritable(fs, p, size);
    }
    GoodPrefix(fs, k, end - 1, end);
    assert Good(fs, end - 1, end) == [end - 1] + Good(fs, end, end);
  }

  lemma {:induction false} GoodAreWritable(fs: Faults, p: nat, end: nat)
    ensures forall i :: 0 <= i < |Good(fs, p, end)| ==> fs.Writable(Good(fs, p, end)[i])
    decreases end - p
  {
    if p < end {
      GoodAreWritable(fs, p + 1, end);
    }
  }

  /** They are all the writable ones. */
  lemma {:induction false} GoodIsComplete(fs: Faults, p: nat, end: nat, k: nat)
    ensures k in Good(fs, p, end) <==> p <= k < end && !fs.bad(k) && !fs.writeFails(k)
    decreases end - p
  {
    if p < end {
      GoodIsComplete(fs, p + 1, end, k);
    }
  }

  /** A block that can be read but not written is read in place of the next one. */
  lemma StaleShows(fs: Faults, flash: seq<Block>, to: nat, size: nat, n: nat, k: nat)
    requires size > 0 && to <= k < |flash| && n <= |Good(fs, to, |flash|)| && |Good(fs, to, k)| < n
    requires Agree(fs, to, k) && fs.Readable(k) && !fs.Writable(k)
    ensures var buf := Revealing(flash, size, n, |Good(fs, to, k)|);
      Read(fs, Place(fs, flash, to, buf).0, to, n) != buf
  {
    var i := |Good(fs, to, k)|;
    var buf := Revealing(flash, size, n, i);
    var placed := Place(fs, flash, to, buf).0;
    PlaceMeaning(fs, flash, to, buf);
    GoodAreWritable(fs, to, |flash|);
    assert placed[k] == flash[k];
    ReadSplits(fs, placed, to, k, n);
    assert Read(fs, placed, k, n - i)[0] == flash[k];
    assert Read(fs, placed, to, n)[i] == flash[k] != buf[i];
  }

  /** A block that can be written but not read is lost. */
  lemma LossShows(fs: Faults, flash: seq<Block>, to: nat, size: nat, n: nat, k: nat)
    requires size > 0 && to <= k < |flash| && n <= |Good(fs, to, |flash|)| && |Good(fs, to, k)| < n
    requires Agree(fs, to, k) && !fs.Readable(k) && fs.Writable(k)
    ensures var buf := Revealing(flash, size, n, |Good(fs, to, k)|);
      Read(fs, Place(fs, flash, to, buf).0, to, n) != buf
  {
    var i := |Good(fs, to, k)|;
    var buf, good := Revealing(flash, size, n, i), Good(fs, to, |flash|);
    var placed := Place(fs, flash, to, buf).0;
    PlaceMeaning(fs, flash, to, buf);
    GoodBounds(fs, to, |flash|);
    GoodPrefix(fs, to, k, |flash|);
    assert good[i] == k;
    ReadSplits(fs, placed, to, k, n);
    forall r: nat | k <= r < |placed| && fs.Readable(r)
      ensures placed[r] != buf[i]
    {
      if r in good[..n] {
        var j :| 0 <= j < n && good[j] == r;
        assert placed[r] == buf[j] && j != i;
      } else {
        assert placed[r] == flash[r];
      }
    }
    var tail := Read(fs, placed, k, n - i);
    ReadHead(fs, placed, k, n - i);
    assert tail != [] ==> Read(fs, placed, to, n)[i] == tail[0];
  }

  /** What is written comes back, for every content, exactly when writing and reading
      agree on all blocks up to the last one that is written. */
  lemma ReadBackExact(fs: Faults, flash: seq<Block>, to: nat, size: nat, n: nat)
    requires size > 0 && to <= |flash| && n <= |Good(fs, to, |flash|)|
    ensures Agree(fs, to, Behind(fs, to, n, |flash|)) <==>
      forall buf: seq<Block> :: |buf| == n && Sized(buf, size) ==> Read(fs, Place(fs, flash, to, buf).0, to, n) == buf
  {
    var end := Behind(fs, to, n, |flash|);
    GoodBehind(fs, to, n, |flash|);
    if Agree(fs, to, end) {
      forall buf: seq<Block> | |buf| == n && Sized(buf, size)
        ensures Read(fs, Place(fs, flash, to, buf).0, to, n) == buf
      {
        ReadsBack(fs, flash, to, buf);
      }
    } else {
      var k := FirstDifference(fs, to, end);
      LastIsGood(fs, to, n, |flash|, k);
      if fs.Readable(k) {
        StaleShows(fs, flash, to, size, n, k);
      } else {
        LossShows(fs, flash, to, size, n, k);
      }
      var buf := Revealing(flash, size, n, |Good(fs, to, k)|);
      assert Read(fs, Place(fs, flash, to, buf).0, to, n) != buf;
    }
  }

  /** The premise on errors is needed: when a block refuses only to be written,
      the read command takes its stale contents for the first block. */
  lemma WriteErrorShiftsRead(fs: Faults, s: State, to: nat, b: Block)
    requires PhysicalStart(s, to) == to && to + 1 < |s.flash|
    requires !fs.bad(to) && fs.writeFails(to) && !fs.readFails(to) && fs.Writable(to + 1)
    ensures Read(fs, Write(fs, s, to, [b]).flash, to, 1) == [s.flash[to]]
    ensures Write(fs, s, to, [b]).flash == s.flash[to + 1 := b]
  {
    assert Place(fs, s.flash, to + 1, [b]) == Place(fs, s.flash[to + 1 := b], to + 2, []);
    assert Place(fs, s.flash, to, [b]).0 == s.flash[to + 1 := b];
    var flash := s.flash[to + 1 := b];
    assert Read(fs, flash, to, 1) == [flash[to]] + Read(fs, flash, to + 1, 0);
  }

  class Chip {
    const fs: Faults
    var flash: seq<Block>
    var nextOfs: int
    var skipOfs: int

    ghost function Now(): State
      reads this
    {
      State(flash, nextOfs, skipOfs)
    }

    constructor (fs: Faults, flash: seq<Block>)
      ensures this.fs == fs && Now() == State(flash, 0, 0)
    {
      this.fs := fs;
      this.flash := flash;
      nextOfs, skipOfs := 0, 0;
    }

    /** onenand_block_write. The loop ends because every turn either stores a
        block or comes closer to the next good one. */
    method BlockWrite(to0: int, buf: seq<Block>) returns (retlen: nat)
      requires 0 <= PhysicalStart(Now(), to0)
      requires |buf| <= |Good(fs, PhysicalStart(Now(), to0), |flash|)|
      modifies this
      ensures Now() == Write(fs, old(Now()), to0, buf) && retlen == |buf|
    {
      var to := to0;
      if to == nextOfs {
        nextOfs := to + |buf|;
        to := to + skipOfs;
      } else {
        nextOfs := to + |buf|;
        skipOfs := 0;
      }
      var ofs: nat := to;
      var blocks := |buf|;
      retlen := 0;
      while blocks > 0
        invariant 0 <= blocks <= |buf| && retlen == |buf| - blocks
        invariant blocks <= |Good(fs, ofs, |flash|)|
        invariant Place(fs, flash, ofs, buf[retlen..]) == Place(fs, old(flash), to, buf)
        invariant nextOfs == to0 + |buf| && skipOfs == ofs - retlen - to0
        decreases blocks, |flash| - ofs
      {
        if fs.bad(ofs) {
          skipOfs := skipOfs + 1;
        } else if fs.writeFails(ofs) {
          skipOfs := skipOfs + 1;
        } else {
          flash := flash[ofs := buf[retlen]];
          assert buf[retlen..][1..] == buf[retlen + 1..];
          blocks := blocks - 1;
          retlen := retlen + 1;
        }
        ofs := ofs + 1;
      }
      assert buf[retlen..] == [];
    }

    /** onenand_block_read. */
    method BlockRead(from: nat, len: nat) returns (buf: seq<Block>)
      requires len <= |Read(fs, flash, from, len)|
      ensures buf == Read(fs, flash, from, len)
    {
      var ofs: nat := from;
      var blocks: nat := len;
      buf := [];
      ghost var all := Read(fs, flash, from, len);
      while blocks > 0
        invariant blocks <= |Read(fs, flash, ofs, blocks)|
        invariant buf + Read(fs, flash, ofs, blocks) == all
        decreases blocks, |flash| - ofs
      {
        if !fs.bad(ofs) && !fs.readFails(ofs) {
          assert buf + ([flash[ofs]] + Read(fs, flash, ofs + 1, blocks - 1)) ==
            (buf + [flash[ofs]]) + Read(fs, flash, ofs + 1, blocks - 1);
          buf := buf + [flash[ofs]];
          blocks := blocks - 1;
        }
        ofs := ofs + 1;
      }
      assert buf + [] == buf;
    }
  }
}
