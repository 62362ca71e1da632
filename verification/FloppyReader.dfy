/**
 fdc_read_data: chunks that end with the track side, two levels of retries. What
 the hardware does is given by answers numbered in the order of the requests.
 */
module FloppyReader {
  import opened Wrappers
  import opened Arithmetic
  import opened FloppyGeometry

  const FDC_RW_RETRIES := 3
  const FDC_CAL_RETRIES := 3

  datatype SeekAnswer = Arrived | NoInterrupt | BadStatus

  /** For the k-th request: does the command get through, where is the transfer
      aborted, how does the seek or the recalibration end. */
  datatype Hardware = Hardware(
    issued: nat -> bool, abortedAt: nat -> Option<nat>, seek: nat -> SeekAnswer, recalibrated: nat -> bool)

  /** The fields of a read command that name the place; one byte each. */
  datatype Command = Command(headBit: bool, track: int, head: int, sector: int, lastSector: int)

  /** How fdc_read_data ends; the C function returns TRUE for Done only. */
  datatype Outcome = Done | NotIssued | SeekFailed | SeekError(late: bool) | NotRecalibrated | TooManyAborts

  /** How one turn of the loop ends. */
  datatype Turn = Repeat | Onward | Finished | Failed(outcome: Outcome)

  /** A read command that got through, for n sectors, and the cylinder the head stood on. */
  datatype Sending = Sending(command: Command, n: nat, cylinder: nat)

  /** What has been asked of the hardware: every read command that got through, how many
      requests there were, where the last seek or recalibration has put the head, and, since
      the last read began, the sectors asked for and how many of these transfers broke off. */
  datatype Trace = Trace(
    commands: seq<Sending>, transfers: nat, seeks: nat, recalibrations: nat, cylinder: nat,
    asked: seq<nat>, aborts: nat)

  /** What is to be read: `all` blocks from `start` on, into the first `limit` bytes. */
  datatype Goal = Goal(start: nat, all: nat, limit: nat)

  /** The k-th transfer, of len bytes, is broken off by the controller. */
  predicate Breaks(hw: Hardware, k: nat, len: int) {
    hw.abortedAt(k).Some? && hw.abortedAt(k).value < len
  }

  /** The answers number `from` to `to` - 1 were good, but for a bad last one. */
  ghost predicate GoodBut(good: nat -> bool, from: nat, to: nat, bad: bool) {
    from <= to && (bad ==> from < to) && forall k :: from <= k < to ==> good(k) == !(bad && k == to - 1)
  }

  function LastSeek(r: Outcome): SeekAnswer {
    match r
    case SeekFailed => NoInterrupt
    case SeekError(_) => BadStatus
    case _ => Arrived
  }

  /** How many of the transfers from the k-th on, one for each entry of `sectors`, are
      broken off. */
  function Broken(hw: Hardware, k: nat, sectors: seq<nat>, size: nat): nat {
    if sectors == [] then 0
    else
      var last := |sectors| - 1;
      Broken(hw, k, sectors[..last], size) + if Breaks(hw, k + last, sectors[last] * size) then 1 else 0
  }

  lemma BrokenStep(hw: Hardware, k: nat, sectors: seq<nat>, size: nat, n: nat)
    ensures Broken(hw, k, sectors + [n], size) ==
      Broken(hw, k, sectors, size) + if Breaks(hw, k + |sectors|, n * size) then 1 else 0
  {
    assert (sectors + [n])[..|sectors|] == sectors;
  }

  function Within(few: set<nat>, k: nat, n: nat): set<nat> {
    set j | j in few && k <= j < k + n
  }

  /** No more transfers break off than there are request numbers at which they may. */
  lemma {:induction false} BrokenBound(hw: Hardware, k: nat, sectors: seq<nat>, size: nat, few: set<nat>)
    requires forall j: nat :: hw.abortedAt(j).Some? ==> j in few
    ensures Broken(hw, k, sectors, size) <= |Within(few, k, |sectors|)|
  {
    if sectors != [] {
      var last := |sectors| - 1;
      BrokenBound(hw, k, sectors[..last], size, few);
      var before, all := Within(few, k, last), Within(few, k, |sectors|);
      if Breaks(hw, k + last, sectors[last] * size) {
        assert all == before + {k + last};
      } else {
        SubsetSize(before, all);
      }
    }
  }

  lemma {:induction false} SubsetSize(a: set<nat>, b: set<nat>)
    requires a <= b
    ensures |a| <= |b|
  {
    if a != {} {
      var x :| x in a;
      SubsetSize(a - {x}, b - {x});
    }
  }

  class Reader {
    const g: Geometry
    const medium: Medium
    const hw: Hardware
    var blnr: nat
    var interrupts: bool
    var motor: bool
    var trace: Trace

    ghost predicate Valid()
    {
      ValidGeometry(g) && forall p :: ValidSector(medium(p), g.sectCode)
    }

    constructor (g: Geometry, medium: Medium, hw: Hardware, blnr: nat)
      requires ValidGeometry(g) && forall p :: ValidSector(medium(p), g.sectCode)
      ensures Valid() && this.g == g && this.medium == medium && this.hw == hw && this.blnr == blnr
      ensures interrupts && !motor && trace == Trace([], 0, 0, 0, 0, [], 0)
    {
      this.g, this.medium, this.hw, this.blnr := g, medium, hw, blnr;
      interrupts, motor := true, false;
      trace := Trace([], 0, 0, 0, 0, [], 0);
    }

    // -------------------------------------------------- what has been asked

    /** The place a command names, as the drive takes it: the head bit selects the
        side. */
    function Named(c: Command): Place
      requires 0 <= c.track && 0 <= c.sector
    {
      Place(c.track, if c.headBit then 1 else 0, c.sector)
    }

    /** A command may read n sectors: they are all on its track side. */
    predicate InRange(c: Command, n: nat)
    {
      && 0 <= c.track && 1 <= c.sector && c.sector + n <= g.sect + 1 && c.lastSector == g.sect
      && (n > 0 ==> OnDisk(g, Named(c)) && c.head == Named(c).head)
    }

    /** Where the head has to stand for block b: the track number is one byte. */
    function Cylinder(b: nat): nat
      requires ValidGeometry(g)
    {
      Split(g, b).track % 256
    }

    /** What is under the head when a command is carried out, whatever track it names. */
    function Under(c: Command, cylinder: nat): Place
      requires 0 <= c.sector
    {
      Place(cylinder, if c.headBit then 1 else 0, c.sector)
    }

    /** Every command named sectors of the cylinder the head stood on. */
    predicate AllInRange(t: Trace) {
      forall k :: 0 <= k < |t.commands| ==>
        InRange(t.commands[k].command, t.commands[k].n) && t.commands[k].cylinder == t.commands[k].command.track
    }

    /** Since o every finished transfer and every recalibration was followed by one seek, after
        a first one; `last` is 0 when that has still to come for the last of them. */
    predicate Soughts(o: Trace, t: Trace, last: nat) {
      t.seeks - o.seeks == last + (t.recalibrations - o.recalibrations) + (|t.asked| - t.aborts)
    }

    /** The commands since o are those of `asked`, and `aborts` of their transfers were
        broken off, not counting the pending one. */
    ghost predicate Recorded(o: Trace, t: Trace, pending: nat) {
      && o.commands <= t.commands && |t.commands| == |o.commands| + |t.asked|
      && (forall j :: 0 <= j < |t.asked| ==> t.asked[j] == t.commands[|o.commands| + j].n)
      && t.aborts + pending == Broken(hw, o.transfers, t.asked, SectorSize(g.sectCode))
    }

    /** Which answer of the hardware ended the read: the last one of its kind, and all
        others since o were good. */
    ghost predicate Explained(r: Outcome, o: Trace, t: Trace) {
      && GoodBut(hw.issued, o.transfers, t.transfers, r == NotIssued)
      && GoodBut(hw.recalibrated, o.recalibrations, t.recalibrations, r == NotRecalibrated)
      && o.seeks < t.seeks && (forall k :: o.seeks <= k < t.seeks - 1 ==> hw.seek(k) == Arrived)
      && hw.seek(t.seeks - 1) == LastSeek(r) && (r.SeekError? ==> r.late == (t.seeks > o.seeks + 1))
    }

    /** All answers have been good, and every request is on record; `pending` of the
        transfers are broken off and not yet counted. */
    ghost predicate Pending(o: Trace, t: Trace, pending: nat) {
      Recorded(o, t, pending) && t.transfers == o.transfers + |t.asked| && Explained(Done, o, t)
    }

    ghost predicate Going(o: Trace, t: Trace) {
      Pending(o, t, 0)
    }

    /** The retry counters count the aborts and the recalibrations. */
    predicate Retried(retriesRw: int, retriesCal: int, aborts: nat, recalibrations: int) {
      && recalibrations == retriesCal && 0 <= retriesRw <= FDC_RW_RETRIES + 1 && 0 <= retriesCal <= FDC_CAL_RETRIES + 1
      && aborts == 5 * retriesCal + retriesRw
    }

    /** What a read that ended with r has asked for. */
    ghost predicate Ended(r: Outcome, o: Trace, t: Trace) {
      && AllInRange(t) && Recorded(o, t, 0) && Explained(r, o, t)
      && t.aborts <= 25 && (t.aborts == 25 <==> r == TooManyAborts)
      && t.recalibrations - o.recalibrations == (if t.aborts < 25 then t.aborts / 5 else 4)
      && Soughts(o, t, if r == Done || r == NotRecalibrated then 0 else 1)
    }

    /** A read goes on, with these retry counters. */
    ghost predicate Running(o: Trace, t: Trace, retriesRw: int, retriesCal: int) {
      && AllInRange(t) && Going(o, t) && t.aborts < 25
      && Retried(retriesRw, retriesCal, t.aborts, t.recalibrations - o.recalibrations)
    }

    /** Where a turn leaves the read, before the seek of that turn or behind it. */
    ghost predicate After(turn: Turn, o: Trace, t: Trace, retriesRw: int, retriesCal: int, sought: bool) {
      match turn
      case Failed(r) => Ended(r, o, t) && r != Done
      case Finished => Running(o, t, retriesRw, retriesCal) && Soughts(o, t, 0)
      case Repeat => Running(o, t, retriesRw, retriesCal) && Soughts(o, t, 1)
      case Onward => Running(o, t, retriesRw, retriesCal) && Soughts(o, t, if sought then 1 else 0)
    }

    // ------------------------------------------------------ what a turn asks

    /** The trace after a read command, which may not have got through. */
    function Sent(t: Trace, c: Command, n: nat): Trace {
      var t' := t.(transfers := t.transfers + 1);
      if hw.issued(t.transfers) then
        t'.(commands := t.commands + [Sending(c, n, t.cylinder)], asked := t.asked + [n])
      else t'
    }

    /** A transfer that was broken off: four plain retries, then a recalibration; four
        recalibrations, then the end. */
    function Aborted(t: Trace, retriesRw: int, retriesCal: int): (Turn, int, int, Trace) {
      var t' := t.(aborts := t.aborts + 1);
      if retriesRw <= FDC_RW_RETRIES then (Repeat, retriesRw + 1, retriesCal, t')
      else if retriesCal > FDC_CAL_RETRIES then (Failed(TooManyAborts), retriesRw + 1, retriesCal + 1, t')
      else
        var t'' := t'.(recalibrations := t.recalibrations + 1, cylinder := 0);
        if hw.recalibrated(t.recalibrations) then (Onward, 0, retriesCal + 1, t'')
        else (Failed(NotRecalibrated), retriesRw + 1, retriesCal + 1, t'')
    }

    /** A turn with a command for n of the blocks that are left, of len bytes. */
    function Tried(t: Trace, c: Command, n: nat, len: int, left: nat, retriesRw: int, retriesCal: int)
      : (Turn, int, int, Trace)
    {
      var t' := Sent(t, c, n);
      if !hw.issued(t.transfers) then (Failed(NotIssued), retriesRw, retriesCal, t')
      else if Breaks(hw, t.transfers, len) then Aborted(t', retriesRw, retriesCal)
      else (if left == n then Finished else Onward, retriesRw, retriesCal, t')
    }

    /** A seek after the first one. */
    function Sought(t: Trace, cylinder: nat): (Turn, Trace) {
      var turn := match hw.seek(t.seeks)
        case Arrived => Onward
        case NoInterrupt => Failed(SeekFailed)
        case BadStatus => Failed(SeekError(true));
      (turn, t.(seeks := t.seeks + 1, cylinder := cylinder))
    }

    lemma SentInRange(t: Trace, c: Command, n: nat)
      requires AllInRange(t) && InRange(c, n) && c.track == t.cylinder
      ensures AllInRange(Sent(t, c, n))
    {
    }

    lemma SentRecorded(o: Trace, t: Trace, c: Command, n: nat, len: int)
      requires Recorded(o, t, 0) && hw.issued(t.transfers) && t.transfers == o.transfers + |t.asked|
      requires len == n * SectorSize(g.sectCode)
      ensures Recorded(o, Sent(t, c, n), if Breaks(hw, t.transfers, len) then 1 else 0)
    {
      BrokenStep(hw, o.transfers, t.asked, SectorSize(g.sectCode), n);
    }

    lemma SentExplained(o: Trace, t: Trace, c: Command, n: nat)
      requires Explained(Done, o, t)
      ensures Explained(if hw.issued(t.transfers) then Done else NotIssued, o, Sent(t, c, n))
    {
    }

    lemma SentStep(o: Trace, t: Trace, c: Command, n: nat, len: int)
      requires AllInRange(t) && Going(o, t) && InRange(c, n) && c.track == t.cylinder
      requires len == n * SectorSize(g.sectCode)
      ensures var t' := Sent(t, c, n);
        && AllInRange(t') && t'.aborts == t.aborts && t'.seeks == t.seeks && t'.recalibrations == t.recalibrations
        && |t'.asked| == |t.asked| + (if hw.issued(t.transfers) then 1 else 0)
        && if hw.issued(t.transfers) then Pending(o, t', if Breaks(hw, t.transfers, len) then 1 else 0)
           else Recorded(o, t', 0) && Explained(NotIssued, o, t')
    {
      SentInRange(t, c, n);
      SentExplained(o, t, c, n);
      if hw.issued(t.transfers) {
        SentRecorded(o, t, c, n, len);
      }
    }

    lemma AbortCounted(o: Trace, t: Trace)
      requires AllInRange(t) && Pending(o, t, 1)
      ensures var t' := t.(aborts := t.aborts + 1);
        AllInRange(t') && Going(o, t')
    {
    }

    lemma RecalibratedStep(o: Trace, t: Trace)
      requires AllInRange(t) && Going(o, t)
      ensures var t' := t.(recalibrations := t.recalibrations + 1, cylinder := 0);
        && AllInRange(t')
        && if hw.recalibrated(t.recalibrations) then Going(o, t')
           else Recorded(o, t', 0) && Explained(NotRecalibrated, o, t')
    {
    }

    /** A transfer of a running read has been broken off. */
    ghost predicate Broke(o: Trace, t: Trace, retriesRw: int, retriesCal: int) {
      && AllInRange(t) && Pending(o, t, 1) && Soughts(o, t, 0)
      && Retried(retriesRw, retriesCal, t.aborts, t.recalibrations - o.recalibrations)
    }

    lemma RetryStep(o: Trace, t: Trace, retriesRw: int, retriesCal: int)
      requires Broke(o, t, retriesRw, retriesCal) && retriesRw <= FDC_RW_RETRIES
      ensures After(Repeat, o, t.(aborts := t.aborts + 1), retriesRw + 1, retriesCal, false)
    {
      AbortCounted(o, t);
    }

    lemma GiveUpStep(o: Trace, t: Trace, retriesRw: int, retriesCal: int)
      requires Broke(o, t, retriesRw, retriesCal) && retriesRw > FDC_RW_RETRIES && retriesCal > FDC_CAL_RETRIES
      ensures Ended(TooManyAborts, o, t.(aborts := t.aborts + 1))
    {
      AbortCounted(o, t);
    }

    lemma CalStep(o: Trace, t: Trace, retriesRw: int, retriesCal: int)
      requires Broke(o, t, retriesRw, retriesCal) && retriesRw > FDC_RW_RETRIES && retriesCal <= FDC_CAL_RETRIES
      ensures var t' := t.(aborts := t.aborts + 1, recalibrations := t.recalibrations + 1, cylinder := 0);
        if hw.recalibrated(t.recalibrations) then After(Onward, o, t', 0, retriesCal + 1, false)
        else Ended(NotRecalibrated, o, t')
    {
      AbortCounted(o, t);
      RecalibratedStep(o, t.(aborts := t.aborts + 1));
    }

    // The first conjunct is an equation, so that it is one proof obligation.
    lemma AbortedStep(o: Trace, t: Trace, retriesRw: int, retriesCal: int)
      requires Broke(o, t, retriesRw, retriesCal)
      ensures var (turn, rw, cal, t') := Aborted(t, retriesRw, retriesCal);
        (After(turn, o, t', rw, cal, false) == true) && t'.aborts == t.aborts + 1
    {
      if retriesRw <= FDC_RW_RETRIES {
        RetryStep(o, t, retriesRw, retriesCal);
      } else if retriesCal > FDC_CAL_RETRIES {
        GiveUpStep(o, t, retriesRw, retriesCal);
      } else {
        CalStep(o, t, retriesRw, retriesCal);
      }
    }

    lemma TriedStep(o: Trace, t: Trace, c: Command, n: nat, len: int, left: nat, retriesRw: int, retriesCal: int)
      requires Running(o, t, retriesRw, retriesCal) && Soughts(o, t, 1)
      requires InRange(c, n) && c.track == t.cylinder && len == n * SectorSize(g.sectCode)
      ensures var (turn, rw, cal, t') := Tried(t, c, n, len, left, retriesRw, retriesCal);
        After(turn, o, t', rw, cal, false) && turn != Failed(SeekError(true)) && t'.aborts >= t.aborts
    {
      SentStep(o, t, c, n, len);
      if hw.issued(t.transfers) && Breaks(hw, t.transfers, len) {
        AbortedStep(o, Sent(t, c, n), retriesRw, retriesCal);
      }
    }

    /** A whole turn: after a chunk that does not end the read, and after a recalibration,
        comes a seek, to the cylinder of the next block. */
    function Turned(t: Trace, c: Command, n: nat, len: int, left: nat, retriesRw: int, retriesCal: int, next: nat)
      : (Turn, int, int, Trace)
    {
      var (turn, rw, cal, t') := Tried(t, c, n, len, left, retriesRw, retriesCal);
      if turn == Onward then (Sought(t', next).0, rw, cal, Sought(t', next).1) else (turn, rw, cal, t')
    }

    lemma TurnedStep(
        o: Trace, t: Trace, c: Command, n: nat, len: int, left: nat, retriesRw: int, retriesCal: int, next: nat)
      requires Running(o, t, retriesRw, retriesCal) && Soughts(o, t, 1)
      requires InRange(c, n) && c.track == t.cylinder && len == n * SectorSize(g.sectCode)
      ensures var (turn, rw, cal, t') := Turned(t, c, n, len, left, retriesRw, retriesCal, next);
        After(turn, o, t', rw, cal, true) && t'.aborts >= t.aborts
    {
      TriedStep(o, t, c, n, len, left, retriesRw, retriesCal);
      var (turn, rw, cal, t') := Tried(t, c, n, len, left, retriesRw, retriesCal);
      if turn == Onward {
        SoughtStep(o, t', rw, cal, next);
      }
    }

    function Result(turn: Turn): Outcome {
      if turn.Failed? then turn.outcome else Done
    }

    lemma EndStep(turn: Turn, o: Trace, t: Trace, retriesRw: int, retriesCal: int)
      requires Ends(turn) && After(turn, o, t, retriesRw, retriesCal, true)
      ensures Ended(Result(turn), o, t) && (Result(turn) == Done <==> !turn.Failed?)
    {
    }

    lemma SoughtRecorded(o: Trace, t: Trace, next: nat)
      requires AllInRange(t) && Recorded(o, t, 0) && Soughts(o, t, 0)
      ensures AllInRange(Sought(t, next).1) && Recorded(o, Sought(t, next).1, 0) && Soughts(o, Sought(t, next).1, 1)
    {
    }

    lemma SoughtExplained(o: Trace, t: Trace, next: nat)
      requires Explained(Done, o, t)
      ensures var (turn, t') := Sought(t, next);
        Explained(if turn.Failed? then turn.outcome else Done, o, t')
    {
    }

    lemma SoughtStep(o: Trace, t: Trace, retriesRw: int, retriesCal: int, next: nat)
      requires Running(o, t, retriesRw, retriesCal) && Soughts(o, t, 0)
      ensures After(Sought(t, next).0, o, Sought(t, next).1, retriesRw, retriesCal, true)
    {
      SoughtRecorded(o, t, next);
      SoughtExplained(o, t, next);
    }

    // ------------------------------------------------------------ the chunks

    /** fdc_issue_cmd for FDC_CMD_READ. */
    method IssueRead(n: nat) returns (c: Command)
      requires Valid() && (n > 0 ==> blnr + n <= Blocks(g)) && n <= g.sect - blnr % g.sect
      ensures InRange(c, n) && c.track == Cylinder(blnr)
      ensures TrackData(medium, Named(c), n) == Image(g, medium, blnr, n)
    {
      CommandFits(blnr, n);
      var p := Split(g, blnr);
      c := Command(p.head != 0, p.track % 256, p.head % 256, p.sector % 256, g.sect);
      if n > 0 {
        assert Named(c) == p;
        TrackIsImage(g, medium, blnr, n);
      }
    }

    /** The place of a block fits the registers, and n sectors fit its track side. */
    lemma CommandFits(b: nat, n: nat)
      requires ValidGeometry(g) && (n > 0 ==> b + n <= Blocks(g)) && n <= g.sect - b % g.sect
      ensures var p := Split(g, b);
        p.head < 2 && 1 <= p.sector < 256 && p.sector + n <= g.sect + 1 && (n > 0 ==> OnDisk(g, p) && p.track < 256)
    {
      SplitIsOnDisk(g, b);
      RoomOnTrack(g, b);
    }

    /** The data phase of transfer number k, with the head on this cylinder: what is under the
        head goes to the buffer until it is complete or the controller breaks off. */
    method Transfer(buffer: array<int>, offset: nat, n: nat, c: Command, k: nat, cylinder: nat)
      returns (complete: bool)
      requires Valid() && InRange(c, n)
      requires offset + n * SectorSize(g.sectCode) <= buffer.Length
      modifies buffer
      ensures complete == !Breaks(hw, k, n * SectorSize(g.sectCode))
      ensures complete ==>
        var behind := offset + n * SectorSize(g.sectCode);
        buffer[..behind] == old(buffer[..offset]) + TrackData(medium, Under(c, cylinder), n)
      ensures buffer[..offset] == old(buffer[..offset])
      ensures forall i :: offset + n * SectorSize(g.sectCode) <= i < buffer.Length ==> buffer[i] == old(buffer[i])
    {
      var data := TrackData(medium, Under(c, cylinder), n);
      TrackLength(medium, Under(c, cylinder), n, g.sectCode);
      var len := n * SectorSize(g.sectCode);
      complete := TransferBytes(buffer, offset, data, len, k);
    }

    /** The loop of the data phase. */
    method TransferBytes(buffer: array<int>, offset: nat, data: seq<int>, len: nat, k: nat) returns (complete: bool)
      requires |data| == len && offset + len <= buffer.Length
      modifies buffer
      ensures complete == !Breaks(hw, k, len)
      ensures complete ==> buffer[..offset + len] == old(buffer[..offset]) + data
      ensures buffer[..offset] == old(buffer[..offset])
      ensures forall i :: offset + len <= i < buffer.Length ==> buffer[i] == old(buffer[i])
    {
      var i := 0;
      while i < len
        invariant i <= len && (hw.abortedAt(k).Some? ==> i <= hw.abortedAt(k).value)
        invariant forall j :: 0 <= j < offset || offset + len <= j < buffer.Length ==> buffer[j] == old(buffer[j])
        invariant forall j :: 0 <= j < i ==> buffer[offset + j] == data[j]
      {
        if hw.abortedAt(k) == Some(i) {
          return false;
        }
        buffer[offset + i] := data[i];
        i := i + 1;
      }
      complete := true;
    }

    /** The data of a command, behind the blocks that are in the buffer. */
    method TakeData(buffer: array<int>, offset: nat, n: nat, c: Command, k: nat, cylinder: nat, ghost start: nat,
                    ghost done: nat, ghost behind: nat)
      returns (complete: bool)
      requires Valid() && InRange(c, n) && Filled(buffer, start, done, offset) && cylinder == c.track
      requires behind == offset + n * SectorSize(g.sectCode) <= buffer.Length
      requires TrackData(medium, Named(c), n) == Image(g, medium, start + done, n)
      modifies buffer
      ensures complete == !Breaks(hw, k, n * SectorSize(g.sectCode))
      ensures Filled(buffer, start, done, offset)
      ensures complete ==> Filled(buffer, start, done + n, behind)
      ensures forall i :: behind <= i < buffer.Length ==> buffer[i] == old(buffer[i])
    {
      complete := Transfer(buffer, offset, n, c, k, cylinder);
      if complete {
        FilledOn(buffer, start, done, n, offset, behind);
      }
    }

    lemma FilledOn(buffer: array<int>, start: nat, done: nat, n: nat, offset: nat, behind: nat)
      requires Filled(buffer, start, done, offset)
      requires behind == offset + n * SectorSize(g.sectCode) <= buffer.Length
      requires buffer[..behind] == buffer[..offset] + Image(g, medium, start + done, n)
      ensures Filled(buffer, start, done + n, behind)
    {
      ImageConcat(g, medium, start, done, n);
    }

    /** The first blocks asked for stand at the front of the buffer. */
    ghost predicate Filled(buffer: array<int>, start: nat, done: nat, offset: nat)
      reads buffer
    {
      ValidGeometry(g) && offset <= buffer.Length && buffer[..offset] == Image(g, medium, start, done)
    }

    /** The block number after `done` blocks, `left` ones to come, the next chunk with
        n of them. */
    ghost predicate Standing(goal: Goal, done: nat, left: nat, n: nat)
      reads this`blnr
    {
      && ValidGeometry(g) && done + left == goal.all
      && blnr == goal.start + done && blnr + left <= Blocks(g) && n == Chunk(g, blnr, left)
    }

    /** Where the read stands, and the first `done` blocks are in the buffer. */
    ghost predicate InFlight(buffer: array<int>, goal: Goal, done: nat, left: nat, n: nat, offset: nat)
      reads this`blnr, buffer
    {
      Standing(goal, done, left, n) && Filled(buffer, goal.start, done, offset)
    }

    /** The blocks to be read fit the buffer. */
    ghost predicate Fits(goal: Goal, room: nat) {
      goal.all * SectorSize(g.sectCode) == goal.limit <= room
    }

    lemma ChunkFits(buffer: array<int>, goal: Goal, done: nat, left: nat, n: nat, offset: nat)
      requires Valid() && Fits(goal, buffer.Length) && InFlight(buffer, goal, done, left, n, offset)
      ensures 0 <= SectorSize(g.sectCode) * n == n * SectorSize(g.sectCode) <= goal.limit - offset
      ensures left == 0 ==> offset == goal.limit
    {
      ImageLength(g, medium, goal.start, done);
      ProductLeft(goal.all, done, n, SectorSize(g.sectCode));
    }

    /** Issue the command and take its data: a complete chunk stands at the offset,
        an aborted one has spoiled nothing in front of it. */
    method ReadChunk(buffer: array<int>, offset: nat, n: nat, ghost goal: Goal, ghost done: nat, ghost left: nat)
      returns (sent: bool, complete: bool, behind: nat, c: Command)
      requires Valid() && Fits(goal, buffer.Length) && InFlight(buffer, goal, done, left, n, offset)
      requires trace.cylinder == Cylinder(blnr)
      modifies this`trace, buffer
      ensures InRange(c, n) && c.track == old(trace).cylinder
      ensures trace == Sent(old(trace), c, n) && sent == hw.issued(old(trace).transfers)
      ensures sent ==> complete == !Breaks(hw, old(trace).transfers, n * SectorSize(g.sectCode))
      ensures Filled(buffer, goal.start, done, offset)
      ensures sent && complete ==> Filled(buffer, goal.start, done + n, behind)
      ensures forall k :: goal.limit <= k < buffer.Length ==> buffer[k] == old(buffer[k])
    {
      ChunkFits(buffer, goal, done, left, n, offset);
      var k, len: nat := trace.transfers, SectorSize(g.sectCode) * n;
      behind := offset + len;
      complete := false;
      c := IssueRead(n);
      sent := hw.issued(k);
      trace := Sent(trace, c, n);
      if sent {
        complete := TakeData(buffer, offset, n, c, k, trace.cylinder, goal.start, done, behind);
      }
    }

    /** A finished chunk: the next one starts on a new track side. */
    method Advance(blocks: nat, readBlk: nat, ghost goal: Goal, ghost done: nat) returns (left: nat, next: nat)
      requires Standing(goal, done, blocks, readBlk)
      modifies this`blnr
      ensures Standing(goal, done + readBlk, left, next) && left == blocks - readBlk
      ensures left < blocks || left == 0
    {
      if readBlk < blocks {
        NextSide(g, blnr, blocks);
      }
      blnr := blnr + readBlk;
      left := blocks - readBlk;
      next := g.sect;
      if next > left {
        next := left;
      }
    }

    /** The two counters of retries. */
    method AfterAbort(retriesRw: int, retriesCal: int) returns (turn: Turn, rw: int, cal: int)
      modifies this`trace
      ensures (turn, rw, cal, trace) == Aborted(old(trace), retriesRw, retriesCal)
    {
      trace := trace.(aborts := trace.aborts + 1);
      rw, cal := retriesRw + 1, retriesCal;
      if retriesRw > FDC_RW_RETRIES {
        cal := retriesCal + 1;
        if retriesCal > FDC_CAL_RETRIES {
          return Failed(TooManyAborts), rw, cal;
        }
        var ok := hw.recalibrated(trace.recalibrations);
        trace := trace.(recalibrations := trace.recalibrations + 1, cylinder := 0);
        if !ok {
          return Failed(NotRecalibrated), rw, cal;
        }
        return Onward, 0, cal;
      }
      turn := Repeat;
    }

    /** One turn up to the seek. */
    method ReadTurn(buffer: array<int>, left: nat, n: nat, offset: nat, retriesRw: int, retriesCal: int,
                    ghost goal: Goal, ghost done: nat)
      returns (turn: Turn, left': nat, n': nat, offset': nat, rw: int, cal: int, c: Command, ghost done': nat)
      requires Valid() && Fits(goal, buffer.Length) && InFlight(buffer, goal, done, left, n, offset)
      requires trace.cylinder == Cylinder(blnr)
      modifies this`trace, this`blnr, buffer
      ensures InRange(c, n) && c.track == old(trace).cylinder
      ensures (turn, rw, cal, trace) ==
        Tried(old(trace), c, n, n * SectorSize(g.sectCode), left, retriesRw, retriesCal)
      ensures InFlight(buffer, goal, done', left', n', offset') && left' <= left
      ensures (turn == Finished ==> left' == 0) && (turn == Repeat ==> trace.cylinder == Cylinder(blnr))
      ensures trace.aborts == old(trace).aborts ==> Ends(turn) || left' < left
      ensures forall k :: goal.limit <= k < buffer.Length ==> buffer[k] == old(buffer[k])
    {
      left', n', offset', rw, cal, done' := left, n, offset, retriesRw, retriesCal, done;
      var sent, complete, behind;
      sent, complete, behind, c := ReadChunk(buffer, offset, n, goal, done, left);
      if !sent {
        turn := Failed(NotIssued);
      } else if !complete {
        turn, rw, cal := AfterAbort(retriesRw, retriesCal);
      } else {
        left', n' := Advance(left, n, goal, done);
        done', offset' := done + n, behind;
        turn := if left' == 0 then Finished else Onward;
      }
    }

    /** A seek after the first one. */
    method SeekOn() returns (turn: Turn)
      requires Valid()
      modifies this`trace
      ensures (turn, trace) == Sought(old(trace), Cylinder(blnr))
    {
      var answer := hw.seek(trace.seeks);
      trace := trace.(seeks := trace.seeks + 1, cylinder := Cylinder(blnr));
      turn := match answer
        case Arrived => Onward
        case NoInterrupt => Failed(SeekFailed)
        case BadStatus => Failed(SeekError(true));
    }

    method Stop()
      modifies this`motor, this`interrupts
      ensures !motor && interrupts
    {
      motor := false;
      interrupts := true;
    }

    /** One turn of the loop. */
    method TakeTurn(buffer: array<int>, left: nat, n: nat, offset: nat, retriesRw: int, retriesCal: int,
                    ghost goal: Goal, ghost done: nat)
      returns (turn: Turn, left': nat, n': nat, offset': nat, rw: int, cal: int, c: Command, ghost done': nat)
      requires Valid() && Fits(goal, buffer.Length) && InFlight(buffer, goal, done, left, n, offset)
      requires trace.cylinder == Cylinder(blnr)
      modifies this`trace, this`blnr, buffer
      ensures InRange(c, n) && c.track == old(trace).cylinder
      ensures (turn, rw, cal, trace) ==
        Turned(old(trace), c, n, n * SectorSize(g.sectCode), left, retriesRw, retriesCal, Cylinder(blnr))
      ensures !Ends(turn) ==> trace.cylinder == Cylinder(blnr)
      ensures InFlight(buffer, goal, done', left', n', offset') && left' <= left
      ensures turn == Finished ==> left' == 0
      ensures trace.aborts == old(trace).aborts ==> Ends(turn) || left' < left
      ensures forall k :: goal.limit <= k < buffer.Length ==> buffer[k] == old(buffer[k])
    {
      turn, left', n', offset', rw, cal, c, done' :=
        ReadTurn(buffer, left, n, offset, retriesRw, retriesCal, goal, done);
      if turn == Onward {
        turn := SeekOn();
      }
    }

    predicate Ends(turn: Turn) {
      turn.Finished? || turn.Failed?
    }

    // --------------------------------------------------------------- the read

    /** fdc_read_data. A completed run leaves exactly the blocks asked for in the
        buffer, whatever was aborted, retried and recalibrated on the way; every
        command stays on one track side; and the read gives up at the 25th
        aborted transfer, since finished chunks do not renew the retries. Every other
        failure is the last answer of its kind. */
    method ReadData(buffer: array<int>, blocks0: nat) returns (r: Outcome)
      requires Valid() && AllInRange(trace) && interrupts
      requires blnr + blocks0 <= Blocks(g) && blocks0 * SectorSize(g.sectCode) <= buffer.Length
      modifies this, buffer
      ensures !motor && Ended(r, old(trace), trace)
      ensures r == Done ==> blnr == old(blnr) + blocks0
      ensures r == Done ==>
        buffer[..] == Image(g, medium, old(blnr), blocks0) + old(buffer[blocks0 * SectorSize(g.sectCode)..])
      ensures forall k :: blocks0 * SectorSize(g.sectCode) <= k < buffer.Length ==> buffer[k] == old(buffer[k])
      ensures interrupts == !(hw.seek(trace.seeks - 1) == BadStatus && trace.seeks > old(trace).seeks + 1)
    {
      FirstStep(trace, Cylinder(blnr));
      var answer := FirstSeek();
      var blocks := blocks0;
      if answer != Arrived {
        Stop();
        return if answer == NoInterrupt then SeekFailed else SeekError(false);
      }
      var readBlk := g.sect - blnr % g.sect;
      if readBlk > blocks {
        readBlk := blocks;
      }
      ghost var goal := Goal(blnr, blocks0, blocks0 * SectorSize(g.sectCode));
      r := ReadLoop(buffer, blocks, readBlk, goal, old(trace));
    }

    /** Hardware that never fails, but for transfers at fewer than 25 of its requests. */
    ghost predicate Harmless(few: set<nat>) {
      && |few| < 25 && (forall k: nat :: hw.abortedAt(k).Some? ==> k in few)
      && (forall k: nat :: hw.issued(k)) && (forall k: nat :: hw.seek(k) == Arrived)
      && (forall k: nat :: hw.recalibrated(k))
    }

    /** Fewer than 25 requests at which a transfer may break off, and no other bad
        answer: such a read succeeds, whatever is read. */
    lemma HarmlessSucceeds(r: Outcome, o: Trace, t: Trace, few: set<nat>)
      requires Harmless(few) && Ended(r, o, t)
      ensures r == Done
    {
      BrokenBound(hw, o.transfers, t.asked, SectorSize(g.sectCode), few);
      SubsetSize(Within(few, o.transfers, |t.asked|), few);
      assert hw.seek(t.seeks - 1) == Arrived;
      assert t.transfers > o.transfers ==> hw.issued(t.transfers - 1);
      assert t.recalibrations > o.recalibrations ==> hw.recalibrated(t.recalibrations - 1);
    }

    /** The first seek of a read, with the interrupts off and the drive on. */
    method FirstSeek() returns (answer: SeekAnswer)
      requires Valid()
      modifies this`interrupts, this`motor, this`trace
      ensures !interrupts && motor && answer == hw.seek(old(trace).seeks)
      ensures trace == old(trace).(seeks := old(trace).seeks + 1, cylinder := Cylinder(blnr), asked := [], aborts := 0)
    {
      interrupts := false;
      motor := true;
      answer := hw.seek(trace.seeks);
      trace := trace.(seeks := trace.seeks + 1, cylinder := Cylinder(blnr), asked := [], aborts := 0);
    }

    lemma FirstStep(t: Trace, cylinder: nat)
      requires AllInRange(t)
      ensures var t' := t.(seeks := t.seeks + 1, cylinder := cylinder, asked := [], aborts := 0);
        match hw.seek(t.seeks)
        case Arrived => Running(t, t', 0, 0) && Soughts(t, t', 1)
        case NoInterrupt => Ended(SeekFailed, t, t')
        case BadStatus => Ended(SeekError(false), t, t')
    {
    }

    /** The loop of fdc_read_data and what follows it. After a late bad seek status the
        interrupts stay off. */
    method ReadLoop(buffer: array<int>, blocks: nat, readBlk: nat, ghost goal: Goal, ghost o: Trace)
      returns (r: Outcome)
      requires Valid() && !interrupts && motor && Running(o, trace, 0, 0) && Soughts(o, trace, 1)
      requires trace.cylinder == Cylinder(blnr)
      requires Fits(goal, buffer.Length) && InFlight(buffer, goal, 0, blocks, readBlk, 0)
      modifies this, buffer
      ensures !motor && Ended(r, o, trace) && interrupts == (r != SeekError(true))
      ensures r == Done ==> blnr == goal.start + goal.all && Filled(buffer, goal.start, goal.all, goal.limit)
      ensures forall k :: goal.limit <= k < buffer.Length ==> buffer[k] == old(buffer[k])
    {
      var turn, left, n, offset, rw, cal;
      ghost var done;
      turn, left, n, offset, rw, cal, done := Turns(buffer, blocks, readBlk, goal, o);
      ChunkFits(buffer, goal, done, left, n, offset);
      EndStep(turn, o, trace, rw, cal);
      r := Result(turn);
      if r == SeekError(true) {
        motor := false;
      } else {
        Stop();
      }
    }

    /** The turns, with the jumps `retryrw` and `retrycal`. */
    method Turns(buffer: array<int>, blocks: nat, readBlk: nat, ghost goal: Goal, ghost o: Trace)
      returns (turn: Turn, left: nat, n: nat, offset: nat, rw: int, cal: int, ghost done: nat)
      requires Valid() && Running(o, trace, 0, 0) && Soughts(o, trace, 1) && trace.cylinder == Cylinder(blnr)
      requires Fits(goal, buffer.Length) && InFlight(buffer, goal, 0, blocks, readBlk, 0)
      modifies this`trace, this`blnr, buffer
      ensures Ends(turn) && After(turn, o, trace, rw, cal, true)
      ensures InFlight(buffer, goal, done, left, n, offset) && (turn == Finished ==> left == 0)
      ensures forall k :: goal.limit <= k < buffer.Length ==> buffer[k] == old(buffer[k])
    {
      rw, cal := 0, 0;
      offset, left, n, done := 0, blocks, readBlk, 0;
      turn := Onward;
      while !Ends(turn)
        invariant InFlight(buffer, goal, done, left, n, offset) && (turn == Finished ==> left == 0)
        invariant After(turn, o, trace, rw, cal, true) && (!Ends(turn) ==> trace.cylinder == Cylinder(blnr))
        invariant forall k :: goal.limit <= k < buffer.Length ==> buffer[k] == old(buffer[k])
        decreases left, 25 - trace.aborts, if Ends(turn) then 0 else 1
      {
        ghost var t, n0, left0, rw0, cal0 := trace, n, left, rw, cal;
        var c;
        turn, left, n, offset, rw, cal, c, done := TakeTurn(buffer, left, n, offset, rw, cal, goal, done);
        TurnedStep(o, t, c, n0, n0 * SectorSize(g.sectCode), left0, rw0, cal0, Cylinder(blnr));
      }
    }

    lemma ProductLeft(all: nat, done: nat, n: nat, size: nat)
      requires done + n <= all
      ensures done * size + n * size == (done + n) * size <= all * size
      ensures 0 <= size * n == n * size
    {
      MulMonotone(done + n, all, size);
    }
  }
}
