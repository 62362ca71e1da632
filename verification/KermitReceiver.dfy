/**
 The receiver as it is programmed: global protocol state, a download address
 that is written through at once, and one loop over the characters of the line.
 */
module KermitReceiver {
  import opened Machine
  import opened Wrappers
  import opened Kermit

  const SEND_DATA_SIZE := 20

  class Downloader {
    /** Every character that ever arrives; getc would wait behind its end. */
    const input: seq<byte>
    var pos: nat
    // his_eol, his_pad_count, his_pad_char, his_quote
    var params: Params
    // memory from the start address on, os_data_addr, k_data_escape
    var memory: seq<byte>
    var osDataAddr: nat
    var osDataAddrSaved: nat
    var kDataEscape: bool
    var kDataEscapeSaved: bool
    const sendParms: array<byte>
    var sendPtr: nat
    // the variables of k_recv that outlive one packet
    var kState: byte
    var kStateSaved: byte
    var n: byte
    var lastN: int
    var replies: seq<Reply>

    ghost predicate Valid()
      reads this
    {
      && pos <= |input| && sendParms.Length == SEND_DATA_SIZE
      && osDataAddr <= |memory| && osDataAddrSaved <= |memory|
    }

    ghost function State(): Receiver
      reads this
    {
      Receiver(Sink(memory, osDataAddr, kDataEscape), osDataAddrSaved, kDataEscapeSaved,
               kState, kStateSaved, lastN, n, params, replies)
    }

    constructor (input: seq<byte>)
      ensures Valid() && fresh(sendParms) && this.input == input && pos == 0
      ensures State() == INITIAL
    {
      this.input := input;
      pos := 0;
      params := DEFAULT_PARAMS;
      memory, osDataAddr, kDataEscape := [], 0, false;
      osDataAddrSaved, kDataEscapeSaved := 0, false;
      sendParms, sendPtr := new byte[SEND_DATA_SIZE](_ => 0), 0;
      kState, kStateSaved, n, lastN, replies := 0, 0, 0, -1, [];
    }

    method GetC() returns (c: byte)
      requires Valid() && pos < |input|
      modifies this`pos
      ensures Valid() && c == input[old(pos)] && pos == old(pos) + 1
    {
      c := input[pos];
      pos := pos + 1;
    }

    // ------------------------------------------------------ data translation

    /** bin_data_char: straight to memory, before the packet is checked. */
    method OsDataChar(b: byte)
      requires Valid()
      modifies this`memory, this`osDataAddr
      ensures Valid() && State().sink == Put(old(State()).sink, b)
    {
      memory := if osDataAddr < |memory| then memory[osDataAddr := b] else memory + [b];
      osDataAddr := osDataAddr + 1;
    }

    method KDataChar(c: byte)
      requires Valid()
      modifies this`memory, this`osDataAddr, this`kDataEscape
      ensures Valid() && State().sink == DataChar(old(State()).sink, params.quote, c)
    {
      if kDataEscape {
        OsDataChar(Ktrans(c));
        kDataEscape := false;
      } else if c == params.quote {
        kDataEscape := true;
      } else {
        OsDataChar(c);
      }
    }

    method SaveState()
      requires Valid()
      modifies this`kStateSaved, this`osDataAddrSaved, this`kDataEscapeSaved
      ensures Valid() && State() == Checkpoint(old(State()))
    {
      kStateSaved := kState;
      kDataEscapeSaved := kDataEscape;
      osDataAddrSaved := osDataAddr;
    }

    method RestoreState()
      requires Valid()
      modifies this`kState, this`osDataAddr, this`kDataEscape
      ensures Valid() && State() == Restore(old(State()))
    {
      kState := kStateSaved;
      kDataEscape := kDataEscapeSaved;
      osDataAddr := osDataAddrSaved;
    }

    // ---------------------------------------------------------------- packets

    method PacketError()
      requires Valid()
      modifies this`kState, this`osDataAddr, this`kDataEscape, this`replies
      ensures Valid()
      ensures State() == Undo(old(State()))
    {
      RestoreState();
      replies := replies + [Nack(n)];
    }

    /** send_parms takes 20 characters and then overwrites its last one. */
    method SaveSendParm(c: byte)
      requires Valid() && sendPtr < SEND_DATA_SIZE
      modifies sendParms, this`sendPtr
      ensures Valid() && sendPtr == if old(sendPtr) == 19 then 19 else old(sendPtr) + 1
      ensures sendParms[old(sendPtr)] == c
      ensures forall k :: 0 <= k < old(sendPtr) ==> sendParms[k] == old(sendParms[k])
    {
      sendParms[sendPtr] := c;
      sendPtr := sendPtr + 1;
      if sendPtr >= SEND_DATA_SIZE {
        sendPtr := sendPtr - 1;
      }
    }

    method HandleSendPacket(ghost body: seq<byte>)
      requires Valid() && sendPtr == (if |body| < 19 then |body| else 19)
      requires forall k :: 0 <= k < sendPtr ==> sendParms[k] == body[k]
      modifies this`params, this`replies, this`sendPtr
      ensures Valid() && params == Negotiate(body) && replies == old(replies) + [InitReply(n, body)]
    {
      params := DEFAULT_PARAMS;
      if sendPtr == SEND_DATA_SIZE - 1 {
        sendPtr := sendPtr - 1;
      }
      var bytes := sendPtr;
      if bytes >= 3 {
        params := params.(padCount := UnToChar(sendParms[2]));
      }
      if bytes >= 4 {
        params := params.(padChar := Ktrans(sendParms[3]));
      }
      if bytes >= 5 {
        params := params.(eol := UnToChar(sendParms[4]));
      }
      if bytes >= 6 {
        params := params.(quote := sendParms[5]);
      }
      replies := replies + [InitAck(n, OwnFields(bytes), params.eol)];
    }

    /** The next character of a packet, which must not be a control character. */
    method GetPlain() returns (v: Verdict, c: byte)
      requires Valid()
      modifies this`pos, this`kState, this`osDataAddr, this`kDataEscape, this`replies
      ensures Valid() && (v == Cut <==> old(pos) == |input|)
      ensures pos == if v == Cut then old(pos) else old(pos) + 1
      ensures State() == if v == Rejected then Undo(old(State())) else old(State())
      ensures v != Cut ==> c == input[old(pos)] && (v == Rejected <==> IsControl(c))
    {
      if pos == |input| {
        return Cut, 0;
      }
      c := GetC();
      v := Accepted;
      if IsControl(c) {
        PacketError();
        v := Rejected;
      }
    }

    lemma TotalStep(b: seq<byte>, k: nat)
      requires k < |b|
      ensures Total(b[..k + 1]) == Total(b[..k]) + b[k]
    {
      assert b[..k + 1][..k] == b[..k];
    }

    /** The length and the sequence number; `length` counts what follows. */
    method ReadNumber() returns (v: Verdict, length: int, sum: nat)
      requires Valid()
      modifies this`pos, this`n, this`kState, this`osDataAddr, this`kDataEscape, this`replies
      ensures Valid()
      ensures var (b, s) := (old(input[pos..]), old(State()));
        var f := Scan(b);
        if v == Accepted then
          && |b| >= 2 && !IsControl(b[0]) && !IsControl(b[1]) && pos == old(pos) + 2
          && n == UnToChar(b[1]) && length == UnToChar(b[0]) as int - 1 && sum == Total(b[..2])
          && State() == s.(n := n)
        else
          v == f.verdict && pos == old(pos) + f.used && State() == Step(s, f)
    {
      ghost var b := input[pos..];
      var c;
      length, sum := 0, 0;
      v, c := GetPlain();
      if v != Accepted {
        return;
      }
      TotalStep(b, 0);
      sum := sum + c;
      length := UnToChar(c);
      v, c := GetPlain();
      if v != Accepted {
        return;
      }
      TotalStep(b, 1);
      sum := sum + c;
      n := UnToChar(c);
      length := length - 1;
      v := Accepted;
    }

    /** A repeated number goes back to the checkpoint, a new one makes it. */
    method BeginPacket()
      requires Valid()
      modifies this`lastN, this`kState, this`kStateSaved, this`osDataAddr, this`osDataAddrSaved,
               this`kDataEscape, this`kDataEscapeSaved
      ensures Valid() && State() == Begin(old(State()), n)
    {
      if n == lastN {
        RestoreState();
      } else {
        lastN := n;
        SaveState();
      }
    }

    /** Number and type; at the end the checkpoint has been taken or gone back
        to. `length` counts what follows the type. */
    method ReadHeader() returns (v: Verdict, length: int, sum: nat)
      requires Valid()
      modifies this`pos, this`n, this`lastN, this`kState, this`kStateSaved, this`osDataAddr, this`osDataAddrSaved,
               this`kDataEscape, this`kDataEscapeSaved, this`replies
      ensures Valid()
      ensures var (b, s) := (old(input[pos..]), old(State()));
        var f := Scan(b);
        if v == Accepted then
          && |b| >= 3 && pos == old(pos) + 3 && n == UnToChar(b[1]) && sum == Total(b[..3])
          && length == UnToChar(b[0]) as int - 2
          && State() == Begin(s, n).(kState := b[2])
          && f == if length == -2 then ScanLong(b, Some(n)) else ScanBody(b, Some(n), 3, 3, length)
        else
          v == f.verdict && pos == old(pos) + f.used && State() == Step(s, f)
    {
      ghost var b, s := input[pos..], State();
      v, length, sum := ReadNumber();
      if v != Accepted {
        return;
      }
      BeginPacket();
      assert State() == Begin(s, n);
      var c;
      v, c := GetPlain();
      if v != Accepted {
        return;
      }
      TotalStep(b, 2);
      sum := sum + c;
      kState := c;
      length := length - 1;
    }

    /** The two length characters and the header check of a long packet. */
    method ReadLongLength(sum0: nat, ghost b: seq<byte>, ghost s: Receiver) returns (v: Verdict, length: int, sum: nat)
      requires Valid() && pos >= 3 && b == input[pos - 3..] && sum0 == Total(b[..3])
      requires s == State()
      modifies this`pos, this`kState, this`osDataAddr, this`kDataEscape, this`replies
      ensures Valid()
      ensures var f := ScanLong(b, Some(n));
        if v == Accepted then
          && |b| >= 6 && pos == old(pos) + 3 && sum == Total(b[..6])
          && length == LongLength(b[3], b[4]) && State() == s && f == ScanBody(b, Some(n), 6, 6, length)
        else
          && v == f.verdict && pos == old(pos) - 3 + f.used && f == Frame(Some(n), Some(b[2]), [], v, f.used)
          && State() == if v == Cut then s else Undo(s)
    {
      var c;
      length, sum := 0, sum0;
      v, c := GetPlain();
      if v != Accepted {
        return;
      }
      TotalStep(b, 3);
      sum := sum + c;
      var lenHi := UnToChar(c);
      v, c := GetPlain();
      if v != Accepted {
        return;
      }
      TotalStep(b, 4);
      sum := sum + c;
      var lenLo := UnToChar(c);
      length := lenHi as int * 95 + lenLo;
      v, c := GetPlain();
      if v != Accepted {
        return;
      }
      if c != BlockCheck(sum) {
        PacketError();
        v := Rejected;
        return;
      }
      TotalStep(b, 5);
      sum := sum + c;
      v := Accepted;
    }

    /** One data character: to memory, to send_parms, or nowhere. */
    method TakeChar(c: byte, ghost seen: seq<byte>)
      requires Valid() && sendPtr < SEND_DATA_SIZE && SendParmsHold(seen)
      modifies this`memory, this`osDataAddr, this`kDataEscape, sendParms, this`sendPtr
      ensures Valid() && SendParmsHold(seen + [c])
      ensures State() == old(State()).(
        sink := if kState == DATA_TYPE then DataChar(old(State()).sink, params.quote, c) else old(State()).sink)
    {
      if kState == DATA_TYPE {
        KDataChar(c);
      } else if kState == SEND_TYPE {
        SaveSendParm(c);
      }
    }

    ghost predicate SendParmsHold(seen: seq<byte>)
      reads this, sendParms
    {
      && sendParms.Length == SEND_DATA_SIZE && sendPtr < SEND_DATA_SIZE
      && (kState == SEND_TYPE ==>
          sendPtr == (if |seen| < 19 then |seen| else 19) && forall k :: 0 <= k < sendPtr ==> sendParms[k] == seen[k])
    }

    /** Block check and end character, behind the data b[from..at]. */
    method ReadTail(sum: nat, ghost b: seq<byte>, ghost from: nat, ghost at: nat, ghost length: int)
      returns (v: Verdict)
      requires Valid() && 3 <= from <= at <= pos && at <= |b| && b == input[pos - at..] && sum == Total(b[..at])
      requires length <= 1 && kState == b[2] && SendParmsHold(b[from..at])
      modifies this`pos, this`kState, this`osDataAddr, this`kDataEscape, this`replies, this`sendPtr, this`params
      ensures Valid()
      ensures var f := ScanBody(b, Some(n), from, at, length);
        v == f.verdict && pos == old(pos) - at + f.used && f.seen == b[from..at] && State() == Conclude(old(State()), f)
    {
      var c;
      v, c := GetPlain();
      if v != Accepted {
        return;
      }
      if c != BlockCheck(sum) {
        PacketError();
        return Rejected;
      }
      if pos == |input| {
        return Cut;
      }
      c := GetC();
      if c != END_CHAR {
        PacketError();
        return Rejected;
      }
      if kState == SEND_TYPE {
        HandleSendPacket(b[from..at]);
      } else {
        replies := replies + [Ack(n)];
      }
      v := Accepted;
    }

    lemma SeenStep(b: seq<byte>, from: nat, at: nat, s: Receiver)
      requires 3 <= from <= at < |b|
      ensures b[from..at + 1] == b[from..at] + [b[at]]
      ensures Pass(s, b[2], b[from..at + 1]) == Pass(s, b[2], b[from..at]).(
        sink := if b[2] == DATA_TYPE then DataChar(Feed(s.sink, s.params.quote, b[from..at]), s.params.quote, b[at])
                else s.sink)
    {
      assert b[from..at + 1][..at - from] == b[from..at];
    }

    /** The characters up to `at` have been summed and passed on. */
    ghost predicate Reading(b: seq<byte>, from: nat, at: nat, sum: nat, s: Receiver)
      requires Valid() && 3 <= from <= at <= |b|
      reads this, sendParms
    {
      && sum == Total(b[..at]) && kState == b[2] && SendParmsHold(b[from..at])
      && State() == Pass(s, b[2], b[from..at])
    }

    /** One data character. */
    method ReadData(sum0: nat, ghost b: seq<byte>, ghost from: nat, ghost at: nat, ghost s: Receiver)
      returns (v: Verdict, sum: nat)
      requires Valid() && 3 <= from <= at <= pos && at <= |b| && b == input[pos - at..] && Reading(b, from, at, sum0, s)
      modifies this`pos, this`kState, this`osDataAddr, this`kDataEscape, this`memory, this`replies,
               sendParms, this`sendPtr
      ensures Valid() && (v == Cut <==> at == |b|) && pos == (if v == Cut then old(pos) else old(pos) + 1)
      ensures v == Cut ==> State() == old(State())
      ensures v == Rejected ==> State() == Undo(old(State())) && IsControl(b[at])
      ensures v == Accepted ==> !IsControl(b[at]) && Reading(b, from, at + 1, sum, s)
    {
      var c;
      sum := sum0;
      v, c := GetPlain();
      if v == Accepted {
        TotalStep(b, at);
        sum := sum0 + c;
        SeenStep(b, from, at, s);
        TakeChar(c, b[from..at]);
      }
    }

    /** The data characters, until the length is used up. */
    method ReadSeen(length0: int, sum0: nat, ghost b: seq<byte>, ghost from: nat, ghost s: Receiver)
      returns (v: Verdict, length: int, sum: nat, ghost at: nat)
      requires Valid() && 3 <= from <= pos && b == input[pos - from..] && Reading(b, from, from, sum0, s)
      modifies this`pos, this`kState, this`osDataAddr, this`kDataEscape, this`memory, this`replies,
               sendParms, this`sendPtr
      ensures Valid() && from <= at <= |b| && n == s.n
      ensures var f := ScanBody(b, Some(n), from, from, length0);
        if v == Accepted then
          && length <= 1 && Reading(b, from, at, sum, s) && pos == old(pos) - from + at
          && f == ScanBody(b, Some(n), from, at, length)
        else
          v == f.verdict && pos == old(pos) - from + f.used && State() == Conclude(Pass(s, b[2], f.seen), f)
    {
      v, length, sum, at := Accepted, length0, sum0, from;
      ghost var f := ScanBody(b, Some(n), from, from, length0);
      while length > 1
        invariant Valid() && from <= at <= |b| && pos == old(pos) - from + at && n == s.n && v == Accepted
        invariant Reading(b, from, at, sum, s)
        invariant f == ScanBody(b, Some(n), from, at, length)
        decreases length
      {
        v, sum := ReadData(sum, b, from, at, s);
        if v != Accepted {
          return;
        }
        length := length - 1;
        at := at + 1;
      }
    }

    /** Data, block check and end character. */
    method ReadBody(length0: int, sum0: nat, ghost b: seq<byte>, ghost from: nat, ghost s: Receiver)
      returns (v: Verdict)
      requires Valid() && 3 <= from <= pos && b == input[pos - from..] && sum0 == Total(b[..from])
      requires s == State() && SendParmsHold([]) && kState == b[2]
      modifies this`pos, this`kState, this`osDataAddr, this`kDataEscape, this`memory, this`replies,
               sendParms, this`sendPtr, this`params
      ensures Valid()
      ensures var f := ScanBody(b, Some(n), from, from, length0);
        && v == f.verdict && pos == old(pos) - from + f.used
        && State() == Conclude(Pass(s, b[2], f.seen), f)
    {
      var length, sum;
      ghost var at;
      v, length, sum, at := ReadSeen(length0, sum0, b, from, s);
      if v == Accepted {
        v := ReadTail(sum, b, from, at, length);
      }
    }

    /** Everything from the start character on. */
    method ReadPacket() returns (v: Verdict)
      requires Valid()
      modifies this, sendParms
      ensures Valid()
      ensures var f := Scan(old(input[pos..]));
        v == f.verdict && pos == old(pos) + f.used && State() == Step(old(State()), f)
    {
      ghost var b, s := input[pos..], State();
      sendPtr := 0;
      var length, sum;
      v, length, sum := ReadHeader();
      if v != Accepted {
        return;
      }
      ghost var from := 3;
      ghost var begun := State();
      assert begun == Pass(Begin(s, n), b[2], []);
      if length == -2 {
        v, length, sum := ReadLongLength(sum, b, begun);
        if v != Accepted {
          return;
        }
        from := 6;
      }
      ScanBodyUsed(b, Some(n), from, from, length);
      v := ReadBody(length, sum, b, from, begun);
    }

    /** Wait for a start character or ^C, dropping everything else. */
    method NextStart() returns (c: Option<byte>)
      requires Valid()
      modifies this`pos
      ensures Valid() && old(pos) <= pos && (c.Some? ==> old(pos) < pos)
      ensures c == None || c == Some(ETX_CHAR) || c == Some(START_CHAR)
      ensures Receive(State(), old(input[pos..])) ==
        if c == None then (Waiting, State())
        else if c == Some(ETX_CHAR) then (Cancelled, State())
        else ReceivePacket(State(), input[pos..])
    {
      ghost var b, s := input[pos..], State();
      while pos < |input|
        invariant Valid() && old(pos) <= pos && State() == s
        invariant Receive(s, input[pos..]) == Receive(s, b)
        decreases |input| - pos
      {
        assert input[pos..][1..] == input[pos + 1..];
        var ch := GetC();
        if ch == START_CHAR || ch == ETX_CHAR {
          return Some(ch);
        }
      }
      c := None;
    }

    /** k_recv. */
    method KRecv() returns (r: Result)
      requires Valid() && State() == INITIAL
      modifies this, sendParms
      ensures Valid()
      ensures (r, State()) == Receive(INITIAL, old(input[pos..]))
    {
      ghost var b := input[pos..];
      while true
        invariant Valid() && Receive(State(), input[pos..]) == Receive(INITIAL, b)
        decreases |input| - pos
      {
        var c := NextStart();
        if c == None {
          return Waiting;
        }
        if c == Some(ETX_CHAR) {
          return Cancelled;
        }
        ScanUsed(input[pos..]);
        ghost var p, s := pos, State();
        var v := ReadPacket();
        assert input[p..][pos - p..] == input[pos..];
        if v == Cut {
          return Waiting;
        }
        if v == Accepted && kState == BREAK_TYPE {
          return Finished(osDataAddr);
        }
      }
    }
  }
}
