/**
 What the receiver accepts, exactly: every well-formed packet and nothing else.
 */
module KermitExact {
  import opened Machine
  import opened Wrappers
  import opened Kermit
  import KermitSession

  /** From position `at` on: d characters that are no control characters, the check of all that
      stands in front of it, and a carriage return right before position `used`. */
  predicate Ends(b: seq<byte>, at: nat, d: nat, used: nat) {
    && used == at + d + 2 <= |b| && (forall i :: at <= i < used - 1 ==> b[i] >= 32)
    && b[used - 2] == BlockCheck(Total(b[..used - 2])) && b[used - 1] == 0x0D
  }

  /** The number of data characters in a body that the check is counted in with. */
  function DataOf(length: int): nat {
    if length < 1 then 0 else length - 1
  }

  /** Length, number and type. */
  predicate ShortHeader(b: seq<byte>) {
    |b| >= 3 && b[0] > 32 && b[1] >= 32 && b[2] >= 32
  }

  /** A blank, number, type, two characters of length and a check of these five. */
  predicate LongHeader(b: seq<byte>) {
    && |b| >= 6 && b[0] == 32 && b[1] >= 32 && b[2] >= 32 && b[3] >= 32 && b[4] >= 32 && b[5] >= 32
    && b[5] == BlockCheck(Total(b[..5]))
  }

  /** The first `used` bytes behind a start character are a packet: a header, and as many
      data characters as it announces. */
  predicate IsPacket(b: seq<byte>, used: nat) {
    || (ShortHeader(b) && Ends(b, 3, DataOf(b[0] as int - 34), used))
    || (LongHeader(b) && Ends(b, 6, DataOf(95 * (b[3] as int - 32) + (b[4] as int - 32)), used))
  }

  /** The frame of such a packet with a header of `from` characters. */
  function Packed(b: seq<byte>, from: nat, used: nat): Frame
    requires 3 <= from <= used - 2 <= |b| && b[1] >= 32
  {
    Frame(Some(b[1] - 32), Some(b[2]), b[from..used - 2], Accepted, used)
  }

  lemma {:induction false} BodyExact(b: seq<byte>, n: Option<byte>, from: nat, at: nat, length: int, used: nat)
    requires 3 <= from <= at <= |b|
    ensures var f := ScanBody(b, n, from, at, length);
      && (f.verdict == Accepted && f.used == used <==> Ends(b, at, DataOf(length), used))
      && (Ends(b, at, DataOf(length), used) ==> f == Frame(n, Some(b[2]), b[from..used - 2], Accepted, used))
    decreases |b| - at
  {
    if length > 1 && at < |b| {
      BodyExact(b, n, from, at + 1, length - 1, used);
    }
  }

  lemma ShortScanned(b: seq<byte>)
    requires ShortHeader(b)
    ensures Scan(b) == ScanBody(b, Some(b[1] - 32), 3, 3, b[0] as int - 34)
  {
    KermitSession.ScanShortHeader(b[..3], b);
  }

  lemma LongLengthOf(hi: byte, lo: byte)
    requires hi >= 32 && lo >= 32
    ensures LongLength(hi, lo) == 95 * (hi as int - 32) + (lo as int - 32)
  {
  }

  lemma LongScanned(b: seq<byte>)
    requires LongHeader(b)
    ensures Scan(b) == ScanBody(b, Some(b[1] - 32), 6, 6, 95 * (b[3] as int - 32) + (b[4] as int - 32))
  {
    assert forall i :: 1 <= i < 6 ==> !IsControl(b[i]);
    KermitSession.ScanLongAccepts(b);
    LongLengthOf(b[3], b[4]);
  }

  lemma OtherScanned(b: seq<byte>)
    requires !ShortHeader(b) && !LongHeader(b)
    ensures Scan(b).verdict != Accepted
  {
    if |b| >= 3 && b[0] == 32 && b[1] >= 32 && b[2] >= 32 {
      assert Scan(b) == ScanLong(b, Some(b[1] - 32));
    }
  }

  /** Accepted are the well-formed packets, each with all its data; everything else is given up or
      waited for. */
  lemma AcceptedExact(b: seq<byte>, used: nat)
    ensures Scan(b).verdict == Accepted && Scan(b).used == used <==> IsPacket(b, used)
    ensures IsPacket(b, used) ==> Scan(b) == Packed(b, if b[0] == 32 then 6 else 3, used)
  {
    if ShortHeader(b) {
      ShortScanned(b);
      BodyExact(b, Some(b[1] - 32), 3, 3, b[0] as int - 34, used);
    } else if LongHeader(b) {
      LongScanned(b);
      BodyExact(b, Some(b[1] - 32), 6, 6, 95 * (b[3] as int - 32) + (b[4] as int - 32), used);
    } else {
      OtherScanned(b);
    }
  }
}
