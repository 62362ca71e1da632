/**
 The Kermit receiver (loadb): framing, control quoting, and the checkpoint that
 undoes a damaged or repeated packet although its data already went to memory.
 Characters are the numbers 0..255; masks are written as arithmetic.
 */
module Kermit {
  import opened Machine
  import opened Wrappers

  const START_CHAR: byte := 0x01
  const ETX_CHAR: byte := 0x03
  const END_CHAR: byte := 0x0D
  const SPACE: byte := 0x20
  const K_ESCAPE: byte := 0x23
  const SEND_TYPE: byte := 0x53
  const DATA_TYPE: byte := 0x44
  const BREAK_TYPE: byte := 0x42

  function ToChar(x: int): byte {
    (x + SPACE) % 256
  }

  function UnToChar(c: byte): byte {
    (c - SPACE) % 256
  }

  /** (c & 0xE0) == 0 */
  predicate IsControl(c: byte) {
    c < 0x20
  }

  /** ktrans: 0x40 is bit 6, and c / 32 % 4 are bits 5 and 6. */
  function Ktrans(c: byte): byte {
    if c / 32 % 4 == 2 then c - 64
    else if c % 128 == 63 then c + 64
    else c
  }

  /** The one-character block check over the sum of the characters. */
  function BlockCheck(sum: nat): byte {
    ToChar((sum + sum / 64 % 4) % 64)
  }

  const ACK_TYPE: byte := 0x59
  const NACK_TYPE: byte := 0x4E

  /** chk1 adds plain chars, which are signed. */
  function SignedTotal(s: seq<byte>): int {
    var last := |s| - 1;
    if s == [] then 0 else SignedTotal(s[..last]) + s[last] as int - (if s[last] < 128 then 0 else 256)
  }

  function Chk1(s: seq<byte>): int {
    (SignedTotal(s) + SignedTotal(s) / 64 % 4) % 64
  }

  /** The text of an answer as it is put on the line. */
  function ReplyText(kind: byte, n: byte, body: seq<byte>, eol: byte): seq<byte> {
    var core: seq<byte> := [ToChar(3 + |body|), ToChar(n), kind] + body;
    [START_CHAR] + core + [ToChar(Chk1(core)), eol]
  }

  /** What the receiver says of itself: packet length, time-out, padding, end of line,
      quote, no 8-bit and no repeat prefix, one-character check, long packets. */
  const OWN_FIELDS: seq<byte> :=
    [ToChar(94), ToChar(1), ToChar(0), 0x40, ToChar(END_CHAR), K_ESCAPE, 0x4E, 0x31, 0x4E,
     ToChar(2), ToChar(0), ToChar(94), ToChar(94)]

  /** It answers the fields it was sent; the tenth one brings the last four. */
  function OwnFields(count: nat): seq<byte> {
    if count >= 10 then OWN_FIELDS else OWN_FIELDS[..count]
  }

  // ------------------------------------------------------- the data stream

  /** Memory from the start address on, the write position, the quote flag. */
  datatype Sink = Sink(mem: seq<byte>, addr: nat, escape: bool)

  function Store(mem: seq<byte>, i: nat, b: byte): seq<byte> {
    if i < |mem| then mem[i := b] else mem + [b]
  }

  function Put(d: Sink, b: byte): Sink {
    d.(mem := Store(d.mem, d.addr, b), addr := d.addr + 1)
  }

  function DataChar(d: Sink, quote: byte, c: byte): Sink {
    if d.escape then Put(d, Ktrans(c)).(escape := false)
    else if c == quote then d.(escape := true)
    else Put(d, c)
  }

  function Feed(d: Sink, quote: byte, s: seq<byte>): Sink {
    if s == [] then d else DataChar(Feed(d, quote, s[..|s| - 1]), quote, s[|s| - 1])
  }

  // --------------------------------------------------------------- framing

  /** What the characters after a start character amount to, whatever the state
      of the receiver: the sequence number and the type if they were read, the
      data characters that were passed on, how it ended and how many characters
      were consumed. `Cut` means that the input ended first. */
  datatype Verdict = Accepted | Rejected | Cut

  datatype Frame = Frame(n: Option<byte>, kind: Option<byte>, seen: seq<byte>, verdict: Verdict, used: nat)

  /** The running sum that the block check is made of. */
  function Total(s: seq<byte>): nat {
    if s == [] then 0 else Total(s[..|s| - 1]) + s[|s| - 1]
  }

  function Scan(b: seq<byte>): Frame {
    if |b| < 1 then Frame(None, None, [], Cut, 0)
    else if IsControl(b[0]) then Frame(None, None, [], Rejected, 1)
    else if |b| < 2 then Frame(None, None, [], Cut, 1)
    else if IsControl(b[1]) then Frame(None, None, [], Rejected, 2)
    else
      var n := Some(UnToChar(b[1]));
      if |b| < 3 then Frame(n, None, [], Cut, 2)
      else if IsControl(b[2]) then Frame(n, None, [], Rejected, 3)
      else
        var length: int := UnToChar(b[0]);
        if length == 0 then ScanLong(b, n) else ScanBody(b, n, 3, 3, length - 2)
  }

  function LongLength(hi: byte, lo: byte): nat {
    UnToChar(hi) as int * 95 + UnToChar(lo)
  }

  /** The extended length: two length characters and a check of the header. */
  function ScanLong(b: seq<byte>, n: Option<byte>): Frame
    requires |b| >= 3
  {
    var kind := Some(b[2]);
    if |b| < 4 then Frame(n, kind, [], Cut, 3)
    else if IsControl(b[3]) then Frame(n, kind, [], Rejected, 4)
    else if |b| < 5 then Frame(n, kind, [], Cut, 4)
    else if IsControl(b[4]) then Frame(n, kind, [], Rejected, 5)
    else if |b| < 6 then Frame(n, kind, [], Cut, 5)
    else if IsControl(b[5]) || b[5] != BlockCheck(Total(b[..5])) then Frame(n, kind, [], Rejected, 6)
    else ScanBody(b, n, 6, 6, LongLength(b[3], b[4]))
  }

  /** The data characters stand from `from` on; `at` is the next one. */
  function ScanBody(b: seq<byte>, n: Option<byte>, from: nat, at: nat, length: int): Frame
    requires 3 <= from <= at <= |b|
    decreases |b| - at
  {
    var kind, seen := Some(b[2]), b[from..at];
    if length > 1 then
      if at == |b| then Frame(n, kind, seen, Cut, at)
      else if IsControl(b[at]) then Frame(n, kind, seen, Rejected, at + 1)
      else ScanBody(b, n, from, at + 1, length - 1)
    else if at == |b| then Frame(n, kind, seen, Cut, at)
    else if IsControl(b[at]) || b[at] != BlockCheck(Total(b[..at])) then Frame(n, kind, seen, Rejected, at + 1)
    else if at + 1 == |b| then Frame(n, kind, seen, Cut, at + 1)
    else Frame(n, kind, seen, if b[at + 1] == END_CHAR then Accepted else Rejected, at + 2)
  }

  // ------------------------------------------------------- receiver states

  /** The parameters of the sender's initiate packet. */
  datatype Params = Params(eol: byte, padCount: byte, padChar: byte, quote: byte)

  const DEFAULT_PARAMS := Params(END_CHAR, 0, 0, K_ESCAPE)

  /** Fields beyond those sent keep their defaults; the buffer of 20 characters
      never uses its last two. */
  function Negotiate(body: seq<byte>): Params {
    var count := |body|;
    Params(
      if count >= 5 then UnToChar(body[4]) else END_CHAR,
      if count >= 3 then UnToChar(body[2]) else 0,
      if count >= 4 then Ktrans(body[3]) else 0,
      if count >= 6 then body[5] else K_ESCAPE)
  }

  datatype Reply = Ack(n: byte) | InitAck(n: byte, fields: seq<byte>, eol: byte) | Nack(n: byte)

  datatype Receiver = Receiver(
    sink: Sink, savedAddr: nat, savedEscape: bool,
    kState: byte, savedKState: byte, lastN: int, n: byte,
    params: Params, replies: seq<Reply>)

  const INITIAL := Receiver(Sink([], 0, false), 0, false, 0, 0, -1, 0, DEFAULT_PARAMS, [])

  function Restore(s: Receiver): Receiver {
    s.(kState := s.savedKState, sink := s.sink.(addr := s.savedAddr, escape := s.savedEscape))
  }

  function Checkpoint(s: Receiver): Receiver {
    s.(savedKState := s.kState, savedAddr := s.sink.addr, savedEscape := s.sink.escape)
  }

  /** A known sequence number goes back to the checkpoint, a new one makes it. */
  function Begin(s: Receiver, n: byte): Receiver {
    if n == s.lastN then Restore(s).(n := n) else Checkpoint(s).(lastN := n, n := n)
  }

  function Pass(s: Receiver, kind: byte, seen: seq<byte>): Receiver {
    s.(kState := kind, sink := if kind == DATA_TYPE then Feed(s.sink, s.params.quote, seen) else s.sink)
  }

  function Read(s: Receiver, f: Frame): Receiver {
    if f.n.None? then s
    else if f.kind.None? then Begin(s, f.n.value)
    else Pass(Begin(s, f.n.value), f.kind.value, f.seen)
  }

  function InitReply(n: byte, body: seq<byte>): Reply {
    InitAck(n, OwnFields(|body|), Negotiate(body).eol)
  }

  /** packet_error: back to the checkpoint, and a negative acknowledge. */
  function Undo(r: Receiver): Receiver {
    var back := Restore(r);
    back.(replies := back.replies + [Nack(back.n)])
  }

  /** The answer to a packet, and the way back from a bad one. */
  function Conclude(r: Receiver, f: Frame): Receiver {
    match f.verdict
    case Cut => r
    case Rejected => Undo(r)
    case Accepted =>
      if r.kState == SEND_TYPE then r.(params := Negotiate(f.seen), replies := r.replies + [InitReply(r.n, f.seen)])
      else r.(replies := r.replies + [Ack(r.n)])
  }

  /** What one packet does to the receiver. */
  function Step(s: Receiver, f: Frame): Receiver {
    Conclude(Read(s, f), f)
  }

  datatype Result = Finished(length: nat) | Cancelled | Waiting

  lemma {:induction false} ScanBodyUsed(b: seq<byte>, n: Option<byte>, from: nat, at: nat, length: int)
    requires 3 <= from <= at <= |b|
    ensures at <= ScanBody(b, n, from, at, length).used <= |b|
    ensures ScanBody(b, n, from, at, length).n == n && ScanBody(b, n, from, at, length).kind == Some(b[2])
    decreases |b| - at
  {
    if length > 1 && at < |b| && !IsControl(b[at]) {
      ScanBodyUsed(b, n, from, at + 1, length - 1);
    }
  }

  lemma ScanUsed(b: seq<byte>)
    ensures Scan(b).used <= |b|
  {
    if |b| >= 3 {
      ScanBodyUsed(b, Some(UnToChar(b[1])), 3, 3, UnToChar(b[0]) as int - 2);
      if |b| >= 6 {
        ScanBodyUsed(b, Some(UnToChar(b[1])), 6, 6, LongLength(b[3], b[4]));
      }
    }
  }

  /** k_recv on everything that arrives: wait for a packet or for ETX. */
  function Receive(s: Receiver, b: seq<byte>): (Result, Receiver)
    decreases |b|, 0
  {
    if b == [] then (Waiting, s)
    else if b[0] == ETX_CHAR then (Cancelled, s)
    else if b[0] != START_CHAR then Receive(s, b[1..])
    else ReceivePacket(s, b[1..])
  }

  function ReceivePacket(s: Receiver, b: seq<byte>): (Result, Receiver)
    decreases |b|, 1
  {
    var f := Scan(b);
    var s' := Step(s, f);
    ScanUsed(b);
    if f.verdict == Cut then (Waiting, s')
    else if f.verdict == Accepted && s'.kState == BREAK_TYPE then (Finished(s'.sink.addr), s')
    else Receive(s', b[f.used..])
  }
}
