/**
 A Kermit file transfer seen from the sender: packets, their transmissions, and
 the theorem that the receiver ends with the file in memory whatever detected
 damage and repetition happened on the line. Packet format: section 6 of the
 Kermit Protocol Manual, sixth edition.
 */
module KermitSession {
  import opened Machine
  import opened Wrappers
  import opened Kermit

  // ------------------------------------------------------------ the sender

  /** `long` selects the extended length field. */
  datatype Packet = Packet(kind: byte, body: seq<byte>, long: bool)

  predicate Printable(s: seq<byte>) {
    forall i :: 0 <= i < |s| ==> !IsControl(s[i])
  }

  predicate ValidPacket(p: Packet) {
    && !IsControl(p.kind) && Printable(p.body)
    && (if p.long then |p.body| + 1 < 95 * 95 else |p.body| + 3 <= 94)
  }

  function Header(p: Packet, n: byte): seq<byte> {
    if p.long then
      var h: seq<byte> := [SPACE, ToChar(n), p.kind, ToChar((|p.body| + 1) / 95), ToChar((|p.body| + 1) % 95)];
      h + [BlockCheck(Total(h))]
    else
      [ToChar(|p.body| + 3), ToChar(n), p.kind]
  }

  /** A packet as sent, without its start character. */
  function Wire(p: Packet, n: byte): seq<byte> {
    var front := Header(p, n) + p.body;
    front + [BlockCheck(Total(front)), END_CHAR]
  }

  /** Control quoting: bit 6 is flipped, and the quote itself is quoted too. */
  function QuoteByte(q: byte, b: byte): seq<byte> {
    if b % 128 < 32 then [q, b + 64]
    else if b % 128 == 127 then [q, b - 64]
    else if b % 128 == q then [q, b]
    else [b]
  }

  function Encode(q: byte, file: seq<byte>): seq<byte> {
    if file == [] then [] else Encode(q, file[..|file| - 1]) + QuoteByte(q, file[|file| - 1])
  }

  /** The characters the protocol allows as control prefix. */
  predicate ValidQuote(q: byte) {
    33 <= q <= 62 || 96 <= q <= 126
  }

  // -------------------------------------------------------------- decoding

  /** What has been received so far, without any machine state. */
  datatype Content = Content(out: seq<byte>, escape: bool, quote: byte)

  function DecodeChar(c: Content, ch: byte): Content {
    if c.escape then c.(out := c.out + [Ktrans(ch)], escape := false)
    else if ch == c.quote then c.(escape := true)
    else c.(out := c.out + [ch])
  }

  function Decode(c: Content, s: seq<byte>): Content {
    if s == [] then c else DecodeChar(Decode(c, s[..|s| - 1]), s[|s| - 1])
  }

  lemma {:induction false} DecodeConcat(c: Content, a: seq<byte>, b: seq<byte>)
    ensures Decode(c, a + b) == Decode(Decode(c, a), b)
  {
    if b == [] {
      assert a + b == a;
    } else {
      DecodeConcat(c, a, b[..|b| - 1]);
      assert (a + b)[..|a + b| - 1] == a + b[..|b| - 1];
    }
  }

  /** ktrans undoes the sender's flip of bit 6 and leaves a quoted quote alone. */
  lemma KtransQuoted(q: byte, b: byte)
    requires ValidQuote(q)
    ensures b % 128 < 32 ==> Ktrans(b + 64) == b
    ensures b % 128 == 127 ==> Ktrans(b - 64) == b
    ensures b % 128 == q ==> Ktrans(b) == b
  {
    SevenBits(b);
  }

  lemma DecodeUnits(c: Content, x: byte)
    requires !c.escape
    ensures x != c.quote ==> Decode(c, [x]) == c.(out := c.out + [x])
    ensures Decode(c, [c.quote, x]) == c.(out := c.out + [Ktrans(x)])
  {
    assert forall y: byte :: [y][..0] == [] && [y, x][..1] == [y];
    assert Decode(c, [c.quote]) == c.(escape := true);
  }

  lemma DecodeQuoted(c: Content, b: byte)
    requires ValidQuote(c.quote) && !c.escape
    ensures Decode(c, QuoteByte(c.quote, b)) == c.(out := c.out + [b])
  {
    KtransQuoted(c.quote, b);
    SevenBits(b);
    if b % 128 < 32 {
      DecodeUnits(c, b + 64);
    } else if b % 128 == 127 {
      DecodeUnits(c, b - 64);
    } else {
      DecodeUnits(c, b);
    }
  }

  lemma SevenBits(b: byte)
    ensures b % 128 == if b < 128 then b else b - 128
  {
  }

  /** Decoding undoes the control quoting for every file and every quote. */
  lemma {:induction false} DecodeEncode(c: Content, file: seq<byte>)
    requires ValidQuote(c.quote) && !c.escape
    ensures Decode(c, Encode(c.quote, file)) == c.(out := c.out + file)
  {
    if file == [] {
      assert c.out + file == c.out;
    } else {
      var last := |file| - 1;
      DecodeEncode(c, file[..last]);
      DecodeConcat(c, Encode(c.quote, file[..last]), QuoteByte(c.quote, file[last]));
      DecodeQuoted(Decode(c, Encode(c.quote, file[..last])), file[last]);
      assert file == file[..last] + [file[last]];
      assert c.out + file[..last] + [file[last]] == c.out + file;
    }
  }

  lemma {:induction false} EncodePrintable(q: byte, file: seq<byte>)
    requires ValidQuote(q)
    ensures Printable(Encode(q, file))
  {
    if file != [] {
      EncodePrintable(q, file[..|file| - 1]);
    }
  }

  // ------------------------------------------------- scanning what was sent

  lemma {:induction false} ScanBodyIntact(b: seq<byte>, n: Option<byte>, from: nat, at: nat, length: nat)
    requires 3 <= from <= at && length >= 1 && at + length + 1 == |b|
    requires forall i :: at <= i < |b| - 2 ==> !IsControl(b[i])
    requires b[|b| - 2] == BlockCheck(Total(b[..|b| - 2])) && b[|b| - 1] == END_CHAR
    ensures ScanBody(b, n, from, at, length) == Frame(n, Some(b[2]), b[from..|b| - 2], Accepted, |b|)
    decreases length
  {
    if length > 1 {
      ScanBodyIntact(b, n, from, at + 1, length - 1);
    }
  }

  lemma ToCharRoundTrip(x: int)
    requires 0 <= x <= 94
    ensures ToChar(x) == x + 32 && UnToChar(ToChar(x)) == x
  {
  }

  lemma CheckIsPrintable(sum: nat)
    ensures !IsControl(BlockCheck(sum))
  {
    var x := (sum + sum / 64 % 4) % 64;
    ToCharRoundTrip(x);
  }

  lemma LongLengthRoundTrip(length: nat)
    requires length < 95 * 95
    ensures var (hi, lo) := (ToChar(length / 95), ToChar(length % 95));
      !IsControl(hi) && !IsControl(lo) && LongLength(hi, lo) == length
  {
    ToCharRoundTrip(length / 95);
    ToCharRoundTrip(length % 95);
  }

  /** The header is read as it was written, in both formats. */
  lemma ScanHeader(p: Packet, n: byte, b: seq<byte>)
    requires ValidPacket(p) && n < 64
    requires Header(p, n) <= b
    ensures var at := |Header(p, n)|;
      3 <= at <= |b| && b[2] == p.kind && Scan(b) == ScanBody(b, Some(n), at, at, |p.body| + 1)
  {
    ToCharRoundTrip(n);
    if p.long {
      var length := |p.body| + 1;
      LongLengthRoundTrip(length);
      ScanLongHeader([SPACE, ToChar(n), p.kind, ToChar(length / 95), ToChar(length % 95)], b);
    } else {
      ToCharRoundTrip(|p.body| + 3);
      ScanShortHeader([ToChar(|p.body| + 3), ToChar(n), p.kind], b);
    }
  }

  lemma ScanShortHeader(front: seq<byte>, b: seq<byte>)
    requires |front| == 3 && front <= b && forall i :: 0 <= i < 3 ==> !IsControl(front[i])
    requires UnToChar(front[0]) != 0
    ensures b[2] == front[2] && Scan(b) == ScanBody(b, Some(UnToChar(front[1])), 3, 3, UnToChar(front[0]) as int - 2)
  {
    assert forall i :: 0 <= i < 3 ==> b[i] == front[i];
  }

  lemma ScanLongHeader(front: seq<byte>, b: seq<byte>)
    requires |front| == 5 && front[0] == SPACE && forall i :: 1 <= i < 5 ==> !IsControl(front[i])
    requires front + [BlockCheck(Total(front))] <= b
    ensures |b| >= 6 && b[2] == front[2]
    ensures Scan(b) == ScanBody(b, Some(UnToChar(front[1])), 6, 6, LongLength(front[3], front[4]))
  {
    var h := front + [BlockCheck(Total(front))];
    assert forall i :: 0 <= i < 6 ==> b[i] == h[i];
    assert b[..5] == front;
    CheckIsPrintable(Total(front));
    ScanLongAccepts(b);
  }

  lemma ScanLongAccepts(b: seq<byte>)
    requires |b| >= 6 && b[0] == SPACE && forall i :: 1 <= i < 6 ==> !IsControl(b[i])
    requires b[5] == BlockCheck(Total(b[..5]))
    ensures Scan(b) == ScanBody(b, Some(UnToChar(b[1])), 6, 6, LongLength(b[3], b[4]))
  {
    assert UnToChar(b[0]) == 0;
    assert Scan(b) == ScanLong(b, Some(UnToChar(b[1])));
  }

  /** Every packet sent intact is accepted, with its number, type and data. */
  lemma ScanWire(p: Packet, n: byte)
    requires ValidPacket(p) && n < 64
    ensures Scan(Wire(p, n)) == Frame(Some(n), Some(p.kind), p.body, Accepted, |Wire(p, n)|)
  {
    var b, h := Wire(p, n), Header(p, n);
    ScanHeader(p, n, b);
    assert b[..|b| - 2] == h + p.body;
    assert b[|h|..|b| - 2] == p.body;
    assert forall i :: |h| <= i < |b| - 2 ==> b[i] == p.body[i - |h|];
    CheckIsPrintable(Total(b[..|b| - 2]));
    ScanBodyIntact(b, Some(n), |h|, |h|, |p.body| + 1);
  }

  lemma {:induction false} ScanBodyExtends(
      b: seq<byte>, rest: seq<byte>, n: Option<byte>, from: nat, at: nat, length: int)
    requires 3 <= from <= at <= |b|
    requires ScanBody(b, n, from, at, length).verdict != Cut
    ensures ScanBody(b + rest, n, from, at, length) == ScanBody(b, n, from, at, length)
    decreases |b| - at
  {
    assert (b + rest)[from..at] == b[from..at];
    assert (b + rest)[..at] == b[..at];
    if length > 1 && !IsControl(b[at]) {
      ScanBodyExtends(b, rest, n, from, at + 1, length - 1);
    }
  }

  /** Once the receiver has decided, later characters change nothing. */
  lemma ScanExtends(b: seq<byte>, rest: seq<byte>)
    requires Scan(b).verdict != Cut
    ensures Scan(b + rest) == Scan(b)
  {
    if |b| >= 3 && !IsControl(b[0]) && !IsControl(b[1]) && !IsControl(b[2]) {
      var n := Some(UnToChar(b[1]));
      var length: int := UnToChar(b[0]);
      if length != 0 {
        ScanBodyExtends(b, rest, n, 3, 3, length - 2);
      } else if |b| >= 6 {
        assert (b + rest)[..5] == b[..5];
        if ScanBody(b, n, 6, 6, LongLength(b[3], b[4])).verdict != Cut {
          ScanBodyExtends(b, rest, n, 6, 6, LongLength(b[3], b[4]));
        }
      }
    }
  }

  // ---------------------------------------------------------- transmissions

  predicate Quiet(s: seq<byte>) {
    START_CHAR !in s && ETX_CHAR !in s
  }

  /** One transmission of a packet, followed by line noise without a start or
      ETX character. `garbled` is what arrives of a damaged one after its start
      character, up to where the receiver gives it up. */
  datatype Transmission = Intact(noise: seq<byte>) | Damaged(garbled: seq<byte>, noise: seq<byte>)

  /** Any damage that the receiver detects and that leaves the length and the
      sequence characters readable, as the receiver's author assumes. */
  predicate ValidTransmission(n: byte, t: Transmission) {
    && Quiet(t.noise)
    && (t.Damaged? ==>
        var f := Scan(t.garbled);
        f.n == Some(n) && f.verdict == Rejected && f.used == |t.garbled|)
  }

  function Sent(p: Packet, n: byte, t: Transmission): seq<byte> {
    [START_CHAR] + (if t.Intact? then Wire(p, n) else t.garbled) + t.noise
  }

  /** Packet number i of the session on its way, for the first time or again. */
  datatype Shot = Shot(i: nat, t: Transmission)

  function SentShot(ps: seq<Packet>, shot: Shot): seq<byte>
    requires shot.i < |ps|
  {
    Sent(ps[shot.i], shot.i % 64, shot.t)
  }

  /** Everything that goes over the line from transmission k on. */
  function Line(ps: seq<Packet>, shots: seq<Shot>, k: nat): seq<byte>
    requires k <= |shots| && forall j :: 0 <= j < |shots| ==> shots[j].i < |ps|
    decreases |shots| - k
  {
    if k == |shots| then [] else SentShot(ps, shots[k]) + Line(ps, shots, k + 1)
  }

  /** The same packet again, or the next one once a copy was intact. */
  predicate Follows(shot: Shot, next: Shot) {
    next.i == shot.i || (next.i == shot.i + 1 && shot.t.Intact?)
  }

  /** Packets are numbered modulo 64 and only the last one breaks the
      transmission. The sender starts with packet 0, repeats a packet as often
      as it likes, whatever happened to the copies before, and goes on to the
      next packet only after a copy that arrived intact. */
  ghost predicate ValidSession(ps: seq<Packet>, shots: seq<Shot>) {
    && 0 < |ps| && 0 < |shots|
    && (forall i :: 0 <= i < |ps| ==> ValidPacket(ps[i]) && (ps[i].kind == BREAK_TYPE <==> i == |ps| - 1))
    && (forall k :: 0 <= k < |shots| ==> shots[k].i < |ps| && ValidTransmission(shots[k].i % 64, shots[k].t))
    && shots[0].i == 0
    && (forall j, k :: 0 <= j < k < |shots| && k == j + 1 ==> Follows(shots[j], shots[k]))
    && shots[|shots| - 1].i == |ps| - 1 && shots[|shots| - 1].t.Intact?
  }

  // ----------------------------------------------------- what the check sees

  lemma Mod64(q: nat, v: nat)
    ensures (64 * q + v) % 64 == v % 64
  {
  }

  lemma CheckOf(h: nat, t: nat, u: nat)
    requires t < 4 && u < 64
    ensures BlockCheck(256 * h + 64 * t + u) == 32 + (u + t) % 64
  {
    var sum := 256 * h + 64 * t + u;
    assert sum / 64 == 4 * h + t && (4 * h + t) % 4 == t;
    assert sum + t == 64 * (4 * h + t) + (u + t);
    Mod64(4 * h + t, u + t);
  }

  /** The character whose change flips one bit differs by a power of two. */
  predicate Bit(d: nat) {
    d == 1 || d == 2 || d == 4 || d == 8 || d == 16 || d == 32 || d == 64 || d == 128
  }

  lemma Mod64Differs(x: nat, y: nat)
    requires x < y < x + 128 && y != x + 64
    ensures x % 64 != y % 64
  {
    assert x == 64 * (x / 64) + x % 64 && y == 64 * (y / 64) + y % 64;
    assert y / 64 < x / 64 + 3;
  }

  lemma HighBitSeen(h: nat, t: nat, u: nat, k: nat)
    requires t < 4 && u < 64 && 1 <= k <= 2
    ensures BlockCheck(256 * h + 64 * t + u + 64 * k) != BlockCheck(256 * h + 64 * t + u)
  {
    CheckOf(h, t, u);
    if t + k < 4 {
      CheckOf(h, t + k, u);
      Mod64Differs(u + t, u + (t + k));
    } else {
      CheckOf(h + 1, t + k - 4, u);
      Mod64Differs(u + (t + k - 4), u + t);
    }
  }

  lemma LowBitSeen(h: nat, t: nat, u: nat, d: nat)
    requires t < 4 && u < 64 && Bit(d) && d < 64
    ensures BlockCheck(256 * h + 64 * t + u + d) != BlockCheck(256 * h + 64 * t + u)
  {
    CheckOf(h, t, u);
    if u + d < 64 {
      CheckOf(h, t, u + d);
      Mod64Differs(u + t, u + d + t);
    } else if t < 3 {
      CheckOf(h, t + 1, u + d - 64);
      Mod64Differs(u + d - 64 + (t + 1), u + t);
    } else {
      CheckOf(h + 1, 0, u + d - 64);
      Mod64Differs(u + d - 64 + 0, u + t);
    }
  }

  /** The check sees the flip of any one bit of any character: no bit of the sum is left out. */
  lemma CheckSeesBit(sum: nat, d: nat)
    requires Bit(d)
    ensures BlockCheck(sum + d) != BlockCheck(sum)
  {
    var h, t, u := sum / 256, sum / 64 % 4, sum % 64;
    assert sum == 256 * h + 64 * t + u;
    if d < 64 {
      LowBitSeen(h, t, u, d);
    } else {
      HighBitSeen(h, t, u, d / 64);
    }
  }

  predicate OneBit(c: byte, x: byte) {
    if c < x then Bit(x - c) else Bit(c - x)
  }

  lemma {:induction false} TotalUpdate(s: seq<byte>, i: nat, x: byte)
    requires i < |s|
    ensures Total(s[i := x]) == Total(s) - s[i] + x
  {
    var last := |s| - 1;
    if i == last {
      assert s[i := x][..last] == s[..last];
    } else {
      TotalUpdate(s[..last], i, x);
      assert s[i := x][..last] == s[..last][i := x];
    }
  }

  /** A check behind s does not fit once a bit of s is flipped. */
  lemma CheckFails(s: seq<byte>, i: nat, x: byte)
    requires i < |s| && OneBit(s[i], x)
    ensures BlockCheck(Total(s[i := x])) != BlockCheck(Total(s))
  {
    TotalUpdate(s, i, x);
    if s[i] < x {
      CheckSeesBit(Total(s), x - s[i]);
    } else {
      CheckSeesBit(Total(s[i := x]), s[i] - x);
    }
  }

  /** A wrong check or end character behind the data is given up, or the data before it;
      an error in character i not before that character. */
  lemma {:induction false} ScanBodyBad(b: seq<byte>, n: Option<byte>, from: nat, at: nat, length: nat, i: nat)
    requires 3 <= from <= at && length >= 1 && at + length + 1 == |b| && i < |b|
    requires b[|b| - 2] != BlockCheck(Total(b[..|b| - 2])) || (b[|b| - 1] != END_CHAR && i == |b| - 1)
    requires forall j :: at <= j < i ==> !IsControl(b[j])
    requires i == |b| - 1 ==> b[|b| - 2] == BlockCheck(Total(b[..|b| - 2]))
    ensures var f := ScanBody(b, n, from, at, length);
      f.verdict == Rejected && f.n == n && i < f.used <= |b|
    decreases length
  {
    if length > 1 && !IsControl(b[at]) {
      ScanBodyBad(b, n, from, at + 1, length - 1, i);
    }
  }

  lemma {:induction false} ScanBodyPrefix(b: seq<byte>, n: Option<byte>, from: nat, at: nat, length: int)
    requires 3 <= from <= at <= |b|
    requires ScanBody(b, n, from, at, length).verdict != Cut
    ensures var used := ScanBody(b, n, from, at, length).used;
      at < used <= |b| && ScanBody(b[..used], n, from, at, length) == ScanBody(b, n, from, at, length)
    decreases |b| - at
  {
    if length > 1 && !IsControl(b[at]) {
      ScanBodyPrefix(b, n, from, at + 1, length - 1);
    } else {
      var used := ScanBody(b, n, from, at, length).used;
      assert b[..used][from..at] == b[from..at];
      assert b[..used][..at] == b[..at];
    }
  }

  lemma ScanLongPrefix(b: seq<byte>, n: Option<byte>)
    requires |b| >= 3 && ScanLong(b, n).verdict != Cut
    ensures var used := ScanLong(b, n).used;
      3 < used <= |b| && ScanLong(b[..used], n) == ScanLong(b, n)
  {
    var used := ScanLong(b, n).used;
    if !IsControl(b[3]) && !IsControl(b[4]) {
      if !IsControl(b[5]) && b[5] == BlockCheck(Total(b[..5])) {
        ScanBodyPrefix(b, n, 6, 6, LongLength(b[3], b[4]));
      }
      assert b[..used][..5] == b[..5];
    }
  }

  /** The receiver decides on what it has consumed. */
  lemma ScanPrefix(b: seq<byte>)
    requires Scan(b).verdict != Cut
    ensures Scan(b).used <= |b| && Scan(b[..Scan(b).used]) == Scan(b)
  {
    ScanUsed(b);
    if |b| >= 3 && !IsControl(b[0]) && !IsControl(b[1]) && !IsControl(b[2]) {
      var n := Some(UnToChar(b[1]));
      var length: int := UnToChar(b[0]);
      if length != 0 {
        ScanBodyPrefix(b, n, 3, 3, length - 2);
      } else {
        ScanLongPrefix(b, n);
      }
    }
  }

  lemma WirePrintable(p: Packet, n: byte, j: nat)
    requires ValidPacket(p) && n < 64 && j < |Wire(p, n)| - 1
    ensures !IsControl(Wire(p, n)[j])
  {
    var front := Header(p, n) + p.body;
    CheckIsPrintable(Total(front));
    ToCharRoundTrip(n);
    if p.long {
      LongLengthRoundTrip(|p.body| + 1);
      CheckIsPrintable(Total(Header(p, n)[..5]));
      assert Header(p, n)[..5] ==
        [SPACE, ToChar(n), p.kind, ToChar((|p.body| + 1) / 95), ToChar((|p.body| + 1) % 95)];
    } else {
      ToCharRoundTrip(|p.body| + 3);
    }
  }

  lemma BadEnd(p: Packet, n: byte, i: nat, x: byte)
    requires i < |Wire(p, n)| && OneBit(Wire(p, n)[i], x)
    ensures var (b, last) := (Wire(p, n)[i := x], |Wire(p, n)| - 2);
      if i == last + 1 then b[last] == BlockCheck(Total(b[..last])) && b[last + 1] != END_CHAR
      else b[last] != BlockCheck(Total(b[..last]))
  {
    var b, last := Wire(p, n), |Wire(p, n)| - 2;
    assert b[..last] == Header(p, n) + p.body;
    if i < last {
      assert b[i := x][..last] == b[..last][i := x];
      CheckFails(b[..last], i, x);
    } else {
      assert b[i := x][..last] == b[..last];
    }
  }

  lemma BodyError(p: Packet, n: byte, i: nat, x: byte)
    requires ValidPacket(p) && n < 64 && |Header(p, n)| <= i < |Wire(p, n)| && OneBit(Wire(p, n)[i], x)
    ensures var f := Scan(Wire(p, n)[i := x]);
      f.verdict == Rejected && f.n == Some(n) && i < f.used
  {
    var at, b' := |Header(p, n)|, Wire(p, n)[i := x];
    ScanHeader(p, n, b');
    BadEnd(p, n, i, x);
    forall j | at <= j < i
      ensures !IsControl(b'[j])
    {
      WirePrintable(p, n, j);
    }
    ScanBodyBad(b', Some(n), at, at, |p.body| + 1, i);
  }

  lemma ShortHeaderError(p: Packet, n: byte, i: nat, x: byte)
    requires ValidPacket(p) && n < 64 && !p.long && 1 <= i < 3 && OneBit(Wire(p, n)[i], x)
    ensures var f := Scan(Wire(p, n)[i := x]);
      f.verdict == Rejected && (i > 1 ==> f.n == Some(n)) && i < f.used
  {
    var b := Wire(p, n)[i := x];
    ToCharRoundTrip(n);
    ToCharRoundTrip(|p.body| + 3);
    if !IsControl(x) {
      ScanShortHeader(b[..3], b);
      BadEnd(p, n, i, x);
      ScanBodyBad(b, Some(UnToChar(b[1])), 3, 3, |p.body| + 1, i);
    }
  }

  lemma LongHeaderRejected(b: seq<byte>, i: nat)
    requires |b| >= 6 && b[0] == SPACE && b[5] != BlockCheck(Total(b[..5]))
    requires 1 <= i < 6 && forall j :: 1 <= j < i ==> !IsControl(b[j])
    ensures Scan(b).verdict == Rejected && i < Scan(b).used && (i > 1 ==> Scan(b).n == Some(UnToChar(b[1])))
  {
  }

  lemma LongFront(p: Packet, n: byte)
    requires p.long
    ensures var b := Wire(p, n);
      |b| >= 6 && b[0] == SPACE && b[1] == ToChar(n) && b[5] == BlockCheck(Total(b[..5]))
  {
    assert Wire(p, n)[..5] == Header(p, n)[..5];
    assert Header(p, n)[..5] ==
      [SPACE, ToChar(n), p.kind, ToChar((|p.body| + 1) / 95), ToChar((|p.body| + 1) % 95)];
  }

  lemma LongHeaderError(p: Packet, n: byte, i: nat, x: byte)
    requires ValidPacket(p) && n < 64 && p.long && 1 <= i < 6 && OneBit(Wire(p, n)[i], x)
    ensures var f := Scan(Wire(p, n)[i := x]);
      f.verdict == Rejected && (i > 1 ==> f.n == Some(n)) && i < f.used
  {
    var b := Wire(p, n);
    LongFront(p, n);
    ToCharRoundTrip(n);
    forall j | 1 <= j < i
      ensures !IsControl(b[j])
    {
      WirePrintable(p, n, j);
    }
    if i < 5 {
      assert b[i := x][..5] == b[..5][i := x];
      CheckFails(b[..5], i, x);
    } else {
      assert b[i := x][..5] == b[..5];
    }
    LongHeaderRejected(b[i := x], i);
  }

  /** A character below 32 ends a packet at once, wherever it stands in front of the end. */
  lemma {:induction false} ControlEndsBody(
      b: seq<byte>, n: Option<byte>, from: nat, at: nat, length: nat, i: nat)
    requires 3 <= from <= at <= i < |b| - 1 && length >= 1 && at + length + 1 == |b|
    requires b[i] < 32 && forall j :: at <= j < i ==> !IsControl(b[j])
    ensures var f := ScanBody(b, n, from, at, length);
      f.verdict == Rejected && f.n == n && f.used == i + 1
    decreases length
  {
    if at < i {
      ControlEndsBody(b, n, from, at + 1, length - 1, i);
    }
  }

  lemma ControlIsDamage(p: Packet, n: byte, i: nat, x: byte)
    requires ValidPacket(p) && n < 64 && |Header(p, n)| <= i < |Wire(p, n)| - 1 && x < 32
    ensures var f := Scan(Wire(p, n)[i := x]);
      f.verdict == Rejected && f.n == Some(n) && f.used == i + 1
  {
    var at, b := |Header(p, n)|, Wire(p, n)[i := x];
    ScanHeader(p, n, b);
    forall j | at <= j < i
      ensures !IsControl(b[j])
    {
      WirePrintable(p, n, j);
    }
    ControlEndsBody(b, Some(n), at, at, |p.body| + 1, i);
  }

  /** Whatever one bit is flipped in a packet behind its length, the packet is given up. Behind
      the number this is one of the damages that the theorems on sessions are about. */
  lemma BitErrorIsDamage(p: Packet, n: byte, i: nat, x: byte) returns (t: Transmission)
    requires ValidPacket(p) && n < 64 && 1 <= i < |Wire(p, n)| && OneBit(Wire(p, n)[i], x)
    ensures t.Damaged? && Sent(p, n, t) == [START_CHAR] + Wire(p, n)[i := x]
    ensures Scan(t.garbled).verdict == Rejected && Scan(t.garbled).used == |t.garbled| && Quiet(t.noise)
    ensures i > 1 ==> ValidTransmission(n, t)
  {
    var b := Wire(p, n)[i := x];
    if i >= |Header(p, n)| {
      BodyError(p, n, i, x);
    } else if p.long {
      LongHeaderError(p, n, i, x);
    } else {
      ShortHeaderError(p, n, i, x);
    }
    ScanPrefix(b);
    var used := Scan(b).used;
    t := Damaged(b[..used], b[used..]);
    forall j | used <= j < |b|
      ensures b[j] != START_CHAR && b[j] != ETX_CHAR
    {
      if j < |b| - 1 {
        WirePrintable(p, n, j);
      }
    }
  }

  // ------------------------------------------------- content and the machine

  function After(c: Content, p: Packet): Content {
    if p.kind == SEND_TYPE then c.(quote := Negotiate(p.body).quote)
    else if p.kind == DATA_TYPE then Decode(c, p.body)
    else c
  }

  function AfterAll(c: Content, ps: seq<Packet>): Content {
    if ps == [] then c else After(AfterAll(c, ps[..|ps| - 1]), ps[|ps| - 1])
  }

  ghost predicate Holds(d: Sink, c: Content) {
    d.addr == |c.out| && c.out <= d.mem && d.escape == c.escape
  }

  /** The checkpoint of s is the content before the current packet. */
  ghost predicate Saved(s: Receiver, c: Content) {
    s.savedAddr == |c.out| && c.out <= s.sink.mem && s.savedEscape == c.escape
  }

  /** s is about to read a transmission of packet p, numbered n, and c is the
      content before p: either p is new, or c is in the checkpoint. */
  ghost predicate Ready(s: Receiver, c: Content, p: Packet, n: byte) {
    if s.lastN != n then Holds(s.sink, c) && s.params.quote == c.quote
    else Saved(s, c) && (s.params.quote == c.quote || s.params.quote == After(c, p).quote)
  }

  lemma {:induction false} FeedHolds(d: Sink, c: Content, s: seq<byte>)
    requires Holds(d, c)
    ensures Holds(Feed(d, c.quote, s), Decode(c, s)) && c.out <= Decode(c, s).out
    ensures Decode(c, s).quote == c.quote
  {
    if s != [] {
      FeedHolds(d, c, s[..|s| - 1]);
    }
  }

  lemma BeginHolds(s: Receiver, c: Content, p: Packet, n: byte)
    requires Ready(s, c, p, n)
    ensures var r := Begin(s, n);
      && Holds(r.sink, c) && Saved(r, c) && r.lastN == n && r.n == n
      && r.params == s.params && r.replies == s.replies
  {
  }

  lemma {:induction false} DecodeKeepsQuote(c: Content, s: seq<byte>)
    ensures Decode(c, s).quote == c.quote
  {
    if s != [] {
      DecodeKeepsQuote(c, s[..|s| - 1]);
    }
  }

  function ReplyTo(p: Packet, n: byte, t: Transmission): Reply {
    if t.Damaged? then Nack(n) else if p.kind == SEND_TYPE then InitReply(n, p.body) else Ack(n)
  }

  /** An intact transmission, first or repeated, brings the receiver to the
      content after the packet; the checkpoint stays before it. */
  lemma StepIntact(s: Receiver, c: Content, p: Packet, n: byte, used: nat)
    requires Ready(s, c, p, n)
    ensures var s' := Step(s, Frame(Some(n), Some(p.kind), p.body, Accepted, used));
      && s'.lastN == n && Saved(s', c) && s'.kState == p.kind
      && Holds(s'.sink, After(c, p)) && s'.params.quote == After(c, p).quote
      && s'.replies == s.replies + [ReplyTo(p, n, Intact([]))]
  {
    BeginHolds(s, c, p, n);
    if p.kind == DATA_TYPE {
      DecodeKeepsQuote(c, p.body);
      FeedHolds(Begin(s, n).sink, c, p.body);
    }
  }

  /** A damaged transmission may have written anything behind the content, but
      it leaves the receiver where the packet began. */
  lemma StepDamaged(s: Receiver, c: Content, p: Packet, n: byte, f: Frame)
    requires Ready(s, c, p, n) && f.n == Some(n) && f.verdict == Rejected
    ensures var s' := Step(s, f);
      && s'.lastN == n && Saved(s', c) && Holds(s'.sink, c)
      && s'.params == s.params && s'.replies == s.replies + [Nack(n)]
  {
    BeginHolds(s, c, p, n);
    var r := Begin(s, n);
    if f.kind == Some(DATA_TYPE) {
      FeedHolds(r.sink, c.(quote := s.params.quote), f.seen);
    }
  }

  lemma {:induction false} ReceiveQuiet(s: Receiver, noise: seq<byte>, b: seq<byte>)
    requires Quiet(noise)
    ensures Receive(s, noise + b) == Receive(s, b)
  {
    if noise == [] {
      assert noise + b == b;
    } else {
      ReceiveQuiet(s, noise[1..], b);
      assert (noise + b)[1..] == noise[1..] + b;
    }
  }

  function FrameOf(p: Packet, n: byte, t: Transmission): Frame {
    if t.Intact? then Frame(Some(n), Some(p.kind), p.body, Accepted, |Wire(p, n)|) else Scan(t.garbled)
  }

  lemma ReceiveStart(s: Receiver, b: seq<byte>)
    requires Scan(b).verdict != Cut
    ensures var f := Scan(b);
      var s' := Step(s, f);
      f.used <= |b| &&
      Receive(s, [START_CHAR] + b) ==
        if f.verdict == Accepted && s'.kState == BREAK_TYPE then (Finished(s'.sink.addr), s')
        else Receive(s', b[f.used..])
  {
    ScanUsed(b);
    assert ([START_CHAR] + b)[1..] == b;
    assert Receive(s, [START_CHAR] + b) == ReceivePacket(s, b);
  }

  /** One transmission is consumed as a whole, then its noise is skipped. */
  lemma ReceiveOne(s: Receiver, p: Packet, n: byte, t: Transmission, rest: seq<byte>)
    requires ValidPacket(p) && n < 64 && ValidTransmission(n, t)
    ensures var s' := Step(s, FrameOf(p, n, t));
      Receive(s, Sent(p, n, t) + rest) ==
        if t.Intact? && s'.kState == BREAK_TYPE then (Finished(s'.sink.addr), s') else Receive(s', rest)
  {
    var shown := if t.Intact? then Wire(p, n) else t.garbled;
    var behind := t.noise + rest;
    assert Sent(p, n, t) + rest == [START_CHAR] + (shown + behind);
    ScanWire(p, n);
    ScanExtends(shown, behind);
    ReceiveStart(s, shown + behind);
    assert (shown + behind)[|shown|..] == behind;
    ReceiveQuiet(Step(s, FrameOf(p, n, t)), t.noise, rest);
  }

  /** One transmission, without the machinery: the next state is ready for a
      repetition and holds the content after or before the packet. */
  lemma Transmit(s: Receiver, c: Content, p: Packet, n: byte, t: Transmission)
    returns (s': Receiver)
    requires ValidTransmission(n, t) && Ready(s, c, p, n)
    ensures s' == Step(s, FrameOf(p, n, t))
    ensures s'.lastN == n && Ready(s', c, p, n) && s'.replies == s.replies + [ReplyTo(p, n, t)]
    ensures Holds(s'.sink, if t.Intact? then After(c, p) else c)
    ensures t.Intact? ==> s'.params.quote == After(c, p).quote && s'.kState == p.kind
  {
    s' := Step(s, FrameOf(p, n, t));
    if t.Intact? {
      StepIntact(s, c, p, n, |Wire(p, n)|);
    } else {
      StepDamaged(s, c, p, n, Scan(t.garbled));
    }
  }

  // ------------------------------------------------------------- the session

  function AnswerTo(ps: seq<Packet>, shot: Shot): Reply
    requires shot.i < |ps|
  {
    ReplyTo(ps[shot.i], shot.i % 64, shot.t)
  }

  /** The answers to the first k transmissions. */
  function Answers(ps: seq<Packet>, shots: seq<Shot>, k: nat): seq<Reply>
    requires k <= |shots| && forall j :: 0 <= j < |shots| ==> shots[j].i < |ps|
  {
    if k == 0 then [] else Answers(ps, shots, k - 1) + [AnswerTo(ps, shots[k - 1])]
  }

  ghost predicate ReadyFor(s: Receiver, c: Content, ps: seq<Packet>, shot: Shot)
    requires shot.i < |ps|
  {
    Ready(s, AfterAll(c, ps[..shot.i]), ps[shot.i], shot.i % 64)
  }

  function StepShot(s: Receiver, ps: seq<Packet>, shot: Shot): Receiver
    requires shot.i < |ps|
  {
    Step(s, FrameOf(ps[shot.i], shot.i % 64, shot.t))
  }

  /** The receiver after the first k transmissions. */
  function StateAfter(ps: seq<Packet>, shots: seq<Shot>, k: nat): Receiver
    requires k <= |shots| && forall j :: 0 <= j < |shots| ==> shots[j].i < |ps|
  {
    if k == 0 then INITIAL else StepShot(StateAfter(ps, shots, k - 1), ps, shots[k - 1])
  }

  const NOTHING := Content([], false, K_ESCAPE)

  /** Between two transmissions: the receiver is ready for the same packet again
      and, after an intact copy, for the next one. */
  lemma NextReady(s: Receiver, ps: seq<Packet>, shot: Shot, next: Shot)
    requires shot.i < |ps| && ValidTransmission(shot.i % 64, shot.t) && ReadyFor(s, NOTHING, ps, shot)
    requires next.i < |ps| && Follows(shot, next)
    ensures ReadyFor(StepShot(s, ps, shot), NOTHING, ps, next)
    ensures StepShot(s, ps, shot).replies == s.replies + [AnswerTo(ps, shot)]
  {
    var s' := Transmit(s, AfterAll(NOTHING, ps[..shot.i]), ps[shot.i], shot.i % 64, shot.t);
    if next.i == shot.i + 1 {
      assert ps[..next.i][..shot.i] == ps[..shot.i];
      assert next.i % 64 != shot.i % 64;
    }
  }

  /** The invariant of the whole session: before every transmission the receiver
      is ready for it and has answered every earlier one exactly once. */
  lemma {:induction false} AlwaysReady(ps: seq<Packet>, shots: seq<Shot>, k: nat)
    requires ValidSession(ps, shots) && k < |shots|
    ensures ReadyFor(StateAfter(ps, shots, k), NOTHING, ps, shots[k])
    ensures StateAfter(ps, shots, k).replies == Answers(ps, shots, k)
  {
    if k > 0 {
      AlwaysReady(ps, shots, k - 1);
      assert Follows(shots[k - 1], shots[k]);
      NextReady(StateAfter(ps, shots, k - 1), ps, shots[k - 1], shots[k]);
    }
  }

  /** What one transmission leaves behind. */
  lemma ShotOutcome(s: Receiver, ps: seq<Packet>, shot: Shot)
    requires shot.i < |ps| && ValidTransmission(shot.i % 64, shot.t) && ReadyFor(s, NOTHING, ps, shot)
    ensures var s' := StepShot(s, ps, shot);
      && s'.replies == s.replies + [AnswerTo(ps, shot)]
      && (shot.t.Intact? ==> s'.kState == ps[shot.i].kind && Holds(s'.sink, AfterAll(NOTHING, ps[..shot.i + 1])))
  {
    var s' := Transmit(s, AfterAll(NOTHING, ps[..shot.i]), ps[shot.i], shot.i % 64, shot.t);
    assert ps[..shot.i + 1][..shot.i] == ps[..shot.i];
  }

  /** The reception goes on exactly until an intact copy of the last packet. */
  lemma AfterShot(ps: seq<Packet>, shots: seq<Shot>, k: nat)
    requires ValidSession(ps, shots) && k < |shots|
    ensures var s' := StateAfter(ps, shots, k + 1);
      && (shots[k].t.Intact? ==> s'.kState == ps[shots[k].i].kind)
      && (shots[k].t.Intact? ==> Holds(s'.sink, AfterAll(NOTHING, ps[..shots[k].i + 1])))
  {
    var s := StateAfter(ps, shots, k);
    AlwaysReady(ps, shots, k);
    ShotOutcome(s, ps, shots[k]);
    StateStep(ps, shots, k);
  }

  lemma AnswersSoFar(ps: seq<Packet>, shots: seq<Shot>, k: nat)
    requires ValidSession(ps, shots) && k < |shots|
    ensures StateAfter(ps, shots, k + 1).replies == Answers(ps, shots, k + 1)
  {
    var s := StateAfter(ps, shots, k);
    AlwaysReady(ps, shots, k);
    ShotOutcome(s, ps, shots[k]);
    StateStep(ps, shots, k);
  }

  lemma LineSplit(ps: seq<Packet>, shots: seq<Shot>, k: nat, rest: seq<byte>)
    requires k < |shots| && forall j :: 0 <= j < |shots| ==> shots[j].i < |ps|
    ensures Line(ps, shots, k) + rest == SentShot(ps, shots[k]) + (Line(ps, shots, k + 1) + rest)
  {
    Assoc(SentShot(ps, shots[k]), Line(ps, shots, k + 1), rest);
  }

  lemma Assoc(a: seq<byte>, b: seq<byte>, c: seq<byte>)
    ensures (a + b) + c == a + (b + c)
  {
  }

  /** The bytes of a transmission and of all that follow. */
  lemma LineStep(s: Receiver, ps: seq<Packet>, shots: seq<Shot>, k: nat, rest: seq<byte>)
    requires k < |shots| && forall j :: 0 <= j < |shots| ==> shots[j].i < |ps|
    requires ValidPacket(ps[shots[k].i]) && ValidTransmission(shots[k].i % 64, shots[k].t)
    ensures var s' := StepShot(s, ps, shots[k]);
      Receive(s, Line(ps, shots, k) + rest) ==
        if shots[k].t.Intact? && s'.kState == BREAK_TYPE then (Finished(s'.sink.addr), s')
        else Receive(s', Line(ps, shots, k + 1) + rest)
  {
    LineSplit(ps, shots, k, rest);
    ReceiveOne(s, ps[shots[k].i], shots[k].i % 64, shots[k].t, Line(ps, shots, k + 1) + rest);
  }

  lemma StateStep(ps: seq<Packet>, shots: seq<Shot>, k: nat)
    requires k < |shots| && forall j :: 0 <= j < |shots| ==> shots[j].i < |ps|
    ensures StateAfter(ps, shots, k + 1) == StepShot(StateAfter(ps, shots, k), ps, shots[k])
  {
  }

  ghost predicate Sendable(ps: seq<Packet>, shots: seq<Shot>) {
    forall k :: 0 <= k < |shots| ==>
      shots[k].i < |ps| && ValidPacket(ps[shots[k].i]) && ValidTransmission(shots[k].i % 64, shots[k].t)
  }

  /** Transmission k ends the reception. */
  predicate EndsWith(ps: seq<Packet>, shots: seq<Shot>, k: nat)
    requires k < |shots| && forall j :: 0 <= j < |shots| ==> shots[j].i < |ps|
  {
    shots[k].t.Intact? && StateAfter(ps, shots, k + 1).kState == BREAK_TYPE
  }

  /** What becomes of the transmissions from number k on. */
  function Received(ps: seq<Packet>, shots: seq<Shot>, k: nat, rest: seq<byte>): (Result, Receiver)
    requires k <= |shots| && forall j :: 0 <= j < |shots| ==> shots[j].i < |ps|
  {
    Receive(StateAfter(ps, shots, k), Line(ps, shots, k) + rest)
  }

  lemma ReceivedStep(ps: seq<Packet>, shots: seq<Shot>, k: nat, rest: seq<byte>)
    requires Sendable(ps, shots) && k < |shots|
    ensures var next := StateAfter(ps, shots, k + 1);
      Received(ps, shots, k, rest) ==
        if EndsWith(ps, shots, k) then (Finished(next.sink.addr), next) else Received(ps, shots, k + 1, rest)
  {
    StateStep(ps, shots, k);
    LineStep(StateAfter(ps, shots, k), ps, shots, k, rest);
  }

  /** What stays the same at every step is the same at the end. */
  lemma {:induction false} Unchanging(value: nat -> (Result, Receiver), k: nat, last: nat)
    requires k <= last && forall j: nat :: k <= j < last ==> value(j) == value(j + 1)
    ensures value(k) == value(last)
    decreases last - k
  {
    if k < last {
      Unchanging(value, k + 1, last);
    }
  }

  /** Reception stops after transmission `last`, the first that ends it. */
  lemma ReceiveUpTo(ps: seq<Packet>, shots: seq<Shot>, k: nat, last: nat, rest: seq<byte>)
    requires Sendable(ps, shots) && k <= last < |shots|
    requires (forall j :: k <= j < last ==> !EndsWith(ps, shots, j)) && EndsWith(ps, shots, last)
    ensures var end := StateAfter(ps, shots, last + 1);
      Receive(StateAfter(ps, shots, k), Line(ps, shots, k) + rest) == (Finished(end.sink.addr), end)
  {
    var received := (j: nat) => if j <= |shots| then Received(ps, shots, j, rest) else (Waiting, INITIAL);
    forall j: nat | k <= j < last
      ensures received(j) == received(j + 1)
    {
      ReceivedStep(ps, shots, j, rest);
    }
    ReceivedStep(ps, shots, last, rest);
    Unchanging(received, k, last);
  }

  /** The session comes to its end. */
  lemma FirstEnd(ps: seq<Packet>, shots: seq<Shot>) returns (last: nat)
    requires ValidSession(ps, shots)
    ensures last < |shots| && shots[last].i == |ps| - 1 && shots[last].t.Intact?
    ensures forall j :: 0 <= j < last ==> !(shots[j].i == |ps| - 1 && shots[j].t.Intact?)
  {
    last := 0;
    while !(shots[last].i == |ps| - 1 && shots[last].t.Intact?)
      invariant last < |shots|
      invariant forall j :: 0 <= j < last ==> !(shots[j].i == |ps| - 1 && shots[j].t.Intact?)
      decreases |shots| - last
    {
      last := last + 1;
    }
  }

  function Payload(ps: seq<Packet>): seq<byte> {
    if ps == [] then []
    else Payload(ps[..|ps| - 1]) + (if ps[|ps| - 1].kind == DATA_TYPE then ps[|ps| - 1].body else [])
  }

  /** After the initiate packet only the data packets matter. */
  lemma {:induction false} AfterAllIsPayload(c: Content, ps: seq<Packet>)
    requires ps != [] && ps[0].kind == SEND_TYPE
    requires forall i :: 0 < i < |ps| ==> ps[i].kind != SEND_TYPE
    ensures AfterAll(c, ps) == Decode(c.(quote := Negotiate(ps[0].body).quote), Payload(ps))
  {
    var last := |ps| - 1;
    if last == 0 {
      assert ps[..0] == [];
      assert Payload(ps) == [];
    } else {
      AfterAllIsPayload(c, ps[..last]);
      var start := c.(quote := Negotiate(ps[0].body).quote);
      if ps[last].kind == DATA_TYPE {
        DecodeConcat(start, Payload(ps[..last]), ps[last].body);
      } else {
        assert Payload(ps) == Payload(ps[..last]);
      }
    }
  }

  /** The reception ends with the first intact copy of the last packet, and with the
      content of all packets. */
  lemma SessionEnds(ps: seq<Packet>, shots: seq<Shot>, rest: seq<byte>) returns (end: Receiver, taken: nat)
    requires ValidSession(ps, shots)
    ensures Receive(INITIAL, Line(ps, shots, 0) + rest) == (Finished(end.sink.addr), end)
    ensures Holds(end.sink, AfterAll(NOTHING, ps))
    ensures taken <= |shots| && end.replies == Answers(ps, shots, taken)
  {
    var last := FirstEnd(ps, shots);
    AfterShot(ps, shots, last);
    AnswersSoFar(ps, shots, last);
    assert ps[..|ps|] == ps;
    forall j | 0 <= j < last
      ensures !EndsWith(ps, shots, j)
    {
      if shots[j].t.Intact? {
        AfterShot(ps, shots, j);
      }
    }
    ReceiveUpTo(ps, shots, 0, last, rest);
    taken := last + 1;
    end := StateAfter(ps, shots, taken);
  }

  /** Whatever file is sent, however the quoted file is cut into packets, and
      whatever detected damage and repetition happens to the transmissions, the
      receiver returns the length of the file, memory holds the file, and every
      transmission that was read got one answer. */
  lemma FileArrives(ps: seq<Packet>, shots: seq<Shot>, file: seq<byte>, noise: seq<byte>, rest: seq<byte>)
    returns (end: Receiver, taken: nat)
    requires ValidSession(ps, shots) && Quiet(noise)
    requires ps[0].kind == SEND_TYPE && forall i :: 0 < i < |ps| ==> ps[i].kind != SEND_TYPE
    requires var q := Negotiate(ps[0].body).quote; ValidQuote(q) && Payload(ps) == Encode(q, file)
    ensures Receive(INITIAL, noise + (Line(ps, shots, 0) + rest)) == (Finished(|file|), end)
    ensures file <= end.sink.mem
    ensures taken <= |shots| && end.replies == Answers(ps, shots, taken)
  {
    end, taken := SessionEnds(ps, shots, rest);
    ReceiveQuiet(INITIAL, noise, Line(ps, shots, 0) + rest);
    AfterAllIsPayload(NOTHING, ps);
    DecodeEncode(NOTHING.(quote := Negotiate(ps[0].body).quote), file);
    assert NOTHING.out + file == file;
  }

  /** One character a packet. */
  function Single(ch: byte): Packet {
    Packet(DATA_TYPE, [ch], false)
  }

  function Singles(body: seq<byte>): (ps: seq<Packet>)
    ensures |ps| == |body| && forall i :: 0 <= i < |body| ==> ps[i] == Single(body[i])
  {
    if body == [] then [] else Singles(body[..|body| - 1]) + [Single(body[|body| - 1])]
  }

  lemma {:induction false} SinglesPayload(init: Packet, body: seq<byte>)
    requires init.kind == SEND_TYPE
    ensures Payload([init] + Singles(body)) == body
  {
    var ps := [init] + Singles(body);
    if body == [] {
      assert ps == [init] && [init][..0] == [];
    } else {
      var front := body[..|body| - 1];
      SinglesPayload(init, front);
      assert ps[..|ps| - 1] == [init] + Singles(front);
    }
  }

  /** Without damage every packet is sent once. */
  lemma SentOnce(ps: seq<Packet>) returns (shots: seq<Shot>)
    requires ps != []
    requires forall i :: 0 <= i < |ps| ==> ValidPacket(ps[i]) && (ps[i].kind == BREAK_TYPE <==> i == |ps| - 1)
    ensures ValidSession(ps, shots)
  {
    shots := seq(|ps|, i requires 0 <= i < |ps| => Shot(i, Intact([])));
  }

  lemma SinglesValid(body: seq<byte>)
    requires Printable(body)
    ensures forall i :: 0 <= i < |body| ==> ValidPacket(Singles(body)[i]) && Singles(body)[i].kind == DATA_TYPE
  {
  }

  /** The initiate packet names the quote. */
  lemma InitFor(q: byte) returns (init: Packet)
    requires ValidQuote(q)
    ensures ValidPacket(init) && init.kind == SEND_TYPE && Negotiate(init.body).quote == q
  {
    init := Packet(SEND_TYPE, OWN_FIELDS[..5] + [q], false);
  }

  lemma Framed(init: Packet, body: seq<byte>) returns (ps: seq<Packet>)
    requires ValidPacket(init) && init.kind == SEND_TYPE && Printable(body)
    ensures ps != [] && ps[0] == init && Payload(ps) == body
    ensures forall i :: 0 <= i < |ps| ==> ValidPacket(ps[i]) && (ps[i].kind == BREAK_TYPE <==> i == |ps| - 1)
    ensures forall i :: 0 < i < |ps| ==> ps[i].kind != SEND_TYPE
  {
    var front := [init] + Singles(body);
    ps := front + [Packet(BREAK_TYPE, [], false)];
    SinglesPayload(init, body);
    assert ps[..|ps| - 1] == front;
    SinglesValid(body);
  }

  /** Such a session exists for every file and every quote. */
  lemma EveryFileCanBeSent(q: byte, file: seq<byte>) returns (ps: seq<Packet>, shots: seq<Shot>)
    requires ValidQuote(q)
    ensures ValidSession(ps, shots)
    ensures ps[0].kind == SEND_TYPE && forall i :: 0 < i < |ps| ==> ps[i].kind != SEND_TYPE
    ensures Negotiate(ps[0].body).quote == q && Payload(ps) == Encode(q, file)
  {
    var init := InitFor(q);
    EncodePrintable(q, file);
    ps := Framed(init, Encode(q, file));
    shots := SentOnce(ps);
  }

  /** What the fields of an initiate packet announce: the receiver takes the padding, the end of
      line and the quote from the third to the sixth, as far as they are sent. */
  lemma FieldsAnnounce(fields: seq<byte>, npad: nat, padc: byte, eol: nat, qctl: byte)
    requires npad <= 94 && eol <= 94 && (padc < 32 || padc == 127)
    requires |fields| > 2 ==> fields[2] == ToChar(npad)
    requires |fields| > 3 ==> fields[3] == if padc == 127 then 63 else padc + 64
    requires |fields| > 4 ==> fields[4] == ToChar(eol)
    requires |fields| > 5 ==> fields[5] == qctl
    ensures var announced := Negotiate(fields);
      && announced.padCount == (if |fields| > 2 then npad else 0)
      && announced.padChar == (if |fields| > 3 then padc else 0)
      && announced.eol == (if |fields| > 4 then eol else END_CHAR)
      && announced.quote == (if |fields| > 5 then qctl else K_ESCAPE)
  {
    ToCharRoundTrip(npad);
    ToCharRoundTrip(eol);
  }

  /** The receiver's own fields, read by the same rules, ask for nothing but the defaults, and
      announce long packets of every length that the extended length can express. */
  lemma OwnFieldsAskNothing(count: nat)
    ensures Negotiate(OwnFields(count)) == DEFAULT_PARAMS
    ensures |OwnFields(count)| == if count < 10 then count else 13
    ensures count >= 10 ==> LongLength(OwnFields(count)[11], OwnFields(count)[12]) == 95 * 95 - 1
  {
    ToCharRoundTrip(94);
    ToCharRoundTrip(0);
    ToCharRoundTrip(END_CHAR);
  }

  /** Three packets as every Kermit program sends them: end of transmission, yes and no. */
  lemma KnownPackets()
    ensures Wire(Packet(BREAK_TYPE, [], false), 0) == [0x23, 0x20, 0x42, 0x27, 0x0D]
    ensures Scan([0x23, 0x20, 0x42, 0x27, 0x0D]) == Frame(Some(0), Some(BREAK_TYPE), [], Accepted, 5)
    ensures ReplyText(ACK_TYPE, 0, [], END_CHAR) == [0x01, 0x23, 0x20, 0x59, 0x3E, 0x0D]
    ensures ReplyText(NACK_TYPE, 0, [], END_CHAR) == [0x01, 0x23, 0x20, 0x4E, 0x33, 0x0D]
  {
    KnownReply(ACK_TYPE);
    KnownReply(NACK_TYPE);
    KnownTotal(0x42);
    assert Header(Packet(BREAK_TYPE, [], false), 0) + [] == [0x23, 0x20, 0x42];
    ScanWire(Packet(BREAK_TYPE, [], false), 0);
  }

  lemma KnownTotal(kind: byte)
    requires kind < 128
    ensures Total([0x23, 0x20, kind]) == 0x43 + kind && SignedTotal([0x23, 0x20, kind]) == 0x43 + kind as int
  {
    var s: seq<byte> := [0x23, 0x20, kind];
    assert s[..2] == [0x23, 0x20] && s[..2][..1] == [0x23];
    assert Total([0x23]) == 0x23;
    assert Total(s[..2]) == 0x43;
    TotalOfPlain(s);
  }

  lemma KnownReply(kind: byte)
    requires kind == ACK_TYPE || kind == NACK_TYPE
    ensures ReplyText(kind, 0, [], END_CHAR) ==
      [0x01, 0x23, 0x20, kind, if kind == ACK_TYPE then 0x3E else 0x33, 0x0D]
  {
    KnownTotal(kind);
    var core: seq<byte> := [ToChar(3), ToChar(0), kind];
    assert core == [0x23, 0x20, kind] && core + [] == core;
  }

  /** An ETX between packets cancels the reception. */
  lemma CancelEnds(s: Receiver, noise: seq<byte>, rest: seq<byte>)
    requires Quiet(noise)
    ensures Receive(s, noise + ([ETX_CHAR] + rest)) == (Cancelled, s)
  {
    ReceiveQuiet(s, noise, [ETX_CHAR] + rest);
  }

  lemma {:induction false} TotalOfPlain(s: seq<byte>)
    requires forall i :: 0 <= i < |s| ==> s[i] < 128
    ensures SignedTotal(s) == Total(s)
  {
    if s != [] {
      TotalOfPlain(s[..|s| - 1]);
    }
  }

  /** The receiver's own answers are packets by the same rules, although their
      check is computed by another routine. */
  lemma ReplyIsPacket(kind: byte, n: byte, body: seq<byte>)
    requires (kind == ACK_TYPE || kind == NACK_TYPE) && n < 64
    requires |body| <= 91 && forall i :: 0 <= i < |body| ==> 32 <= body[i] < 128
    ensures ReplyText(kind, n, body, END_CHAR) == [START_CHAR] + Wire(Packet(kind, body, false), n)
    ensures Scan(ReplyText(kind, n, body, END_CHAR)[1..]) == Frame(Some(n), Some(kind), body, Accepted, 5 + |body|)
  {
    var core: seq<byte> := [ToChar(3 + |body|), ToChar(n), kind] + body;
    ToCharRoundTrip(3 + |body|);
    ToCharRoundTrip(n);
    TotalOfPlain(core);
    var p := Packet(kind, body, false);
    assert Header(p, n) + p.body == core;
    assert ReplyText(kind, n, body, END_CHAR) == [START_CHAR] + Wire(p, n);
    ScanWire(p, n);
  }

  /** So is the answer to an initiate packet of any length. */
  lemma InitReplyIsPacket(n: byte, body: seq<byte>)
    requires n < 64
    ensures var fields := InitReply(n, body).fields;
      Scan(ReplyText(ACK_TYPE, n, fields, END_CHAR)[1..]) ==
        Frame(Some(n), Some(ACK_TYPE), fields, Accepted, 5 + |fields|)
  {
    ReplyIsPacket(ACK_TYPE, n, OwnFields(|body|));
  }

  // ------------------------------------------------ damage to the header

  predicate AddsData(p: Packet) {
    p.kind == DATA_TYPE && p.body != []
  }

  /** How far the decoding has come. */
  function Progress(c: Content): nat {
    2 * |c.out| + if c.escape then 1 else 0
  }

  lemma {:induction false} DecodeProgress(c: Content, s: seq<byte>)
    ensures Progress(Decode(c, s)) >= Progress(c) + |s|
  {
    if s != [] {
      DecodeProgress(c, s[..|s| - 1]);
    }
  }

  /** A place in memory is behind one content only up to what decoding adds. */
  lemma OneContent(d: Sink, c: Content, p: Packet)
    requires Holds(d, c) || Holds(d, After(c, p))
    ensures Holds(d, c) && Holds(d, After(c, p)) ==> !AddsData(p)
    ensures !AddsData(p) ==> Holds(d, c) && Holds(d, After(c, p))
  {
    if AddsData(p) {
      DecodeProgress(c, p.body);
    }
  }

  function StepWith(s: Receiver, p: Packet, n: byte): Receiver {
    Step(s, FrameOf(p, n, Intact([])))
  }

  /** Whatever packet of another number comes next, it is decoded behind c. */
  ghost predicate GoesOn(s: Receiver, c: Content, n: byte) {
    forall next: Packet, n': byte :: n' != n ==> Holds(StepWith(s, next, n').sink, After(c, next))
  }

  /** A transmission given up by the receiver, whose number read as m if it was read. */
  lemma StepRejected(s: Receiver, c: Content, p: Packet, n: byte, f: Frame)
    requires Ready(s, c, p, n) && f.verdict == Rejected
    ensures var s2 := Step(StepWith(s, p, n), f);
      && s2.params.quote == After(c, p).quote
      && s2.replies == StepWith(s, p, n).replies + [Nack(if f.n.None? then n else f.n.value)]
      && if f.n.None? || f.n.value == n then s2.lastN == n && Holds(s2.sink, c) && Saved(s2, c)
         else s2.lastN == f.n.value && Holds(s2.sink, After(c, p)) && Saved(s2, After(c, p))
  {
    var s1 := StepWith(s, p, n);
    StepIntact(s, c, p, n, |Wire(p, n)|);
    DecodeKeepsQuote(c, p.body);
    if f.n.Some? {
      if f.n.value == n {
        StepDamaged(s1, c, p, n, f);
      } else {
        StepDamaged(s1, After(c, p), p, f.n.value, f);
      }
    }
  }

  lemma GoesOnExact(s: Receiver, c: Content, p: Packet, n: byte, s2: Receiver)
    requires s2.lastN == n && Holds(s2.sink, c) && s2.params.quote == After(c, p).quote
    ensures GoesOn(s2, After(c, p), n) <==> !AddsData(p)
  {
    if AddsData(p) {
      var next, n' := Packet(DATA_TYPE, [], false), (n + 1) % 256;
      assert StepWith(s2, next, n').sink == s2.sink && After(After(c, p), next) == After(c, p);
      OneContent(s2.sink, c, p);
    } else {
      OneContent(s2.sink, c, p);
      GoesOnFrom(s2, After(c, p), n);
    }
  }

  lemma GoesOnFrom(s: Receiver, c: Content, n: byte)
    requires Holds(s.sink, c) && s.params.quote == c.quote
    requires s.lastN != n ==> Saved(s, c)
    ensures GoesOn(s, c, n)
  {
    forall next: Packet, n': byte | n' != n
      ensures Holds(StepWith(s, next, n').sink, After(c, next))
    {
      StepIntact(s, c, next, n', |Wire(next, n')|);
    }
  }

  /** The limit that the receiver's author states, exactly. Packet p has arrived intact,
      then comes a transmission whose header is damaged anyhow. The packets that follow
      are decoded behind p exactly when the number read as another one or p adds nothing;
      a repetition of p leaves p once exactly when the number was not read, or read as
      that of p, or p adds nothing. */
  lemma HeaderDamageExact(
      s: Receiver, c: Content, p: Packet, n: byte, garbled: seq<byte>, noise: seq<byte>, rest: seq<byte>)
    requires ValidPacket(p) && n < 64 && p.kind != BREAK_TYPE && Ready(s, c, p, n)
    requires Scan(garbled).verdict == Rejected && Scan(garbled).used == |garbled| && Quiet(noise)
    ensures var f := Scan(garbled);
      var s2 := Step(StepWith(s, p, n), f);
      && Receive(s, Sent(p, n, Intact([])) + ([START_CHAR] + (garbled + (noise + rest)))) == Receive(s2, rest)
      && s2.replies == StepWith(s, p, n).replies + [Nack(if f.n.None? then n else f.n.value)]
      && (GoesOn(s2, After(c, p), n) <==> (f.n.Some? && f.n.value != n) || !AddsData(p))
      && (Holds(StepWith(s2, p, n).sink, After(c, p)) <==> f.n.None? || f.n.value == n || !AddsData(p))
  {
    var f := Scan(garbled);
    var s1 := StepWith(s, p, n);
    var s2 := Step(s1, f);
    StepRejected(s, c, p, n, f);
    ReceiveOne(s, p, n, Intact([]), [START_CHAR] + (garbled + (noise + rest)));
    StepIntact(s, c, p, n, |Wire(p, n)|);
    ReceiveGarbled(s1, garbled, noise, rest);
    if f.n.None? || f.n.value == n {
      GoesOnExact(s, c, p, n, s2);
      StepIntact(s2, c, p, n, |Wire(p, n)|);
    } else {
      GoesOnFrom(s2, After(c, p), n);
      StepIntact(s2, After(c, p), p, n, |Wire(p, n)|);
      OneContent(StepWith(s2, p, n).sink, After(c, p), p);
    }
  }

  lemma ReceiveGarbled(s: Receiver, garbled: seq<byte>, noise: seq<byte>, rest: seq<byte>)
    requires Scan(garbled).verdict == Rejected && Scan(garbled).used == |garbled| && Quiet(noise)
    ensures Receive(s, [START_CHAR] + (garbled + (noise + rest))) == Receive(Step(s, Scan(garbled)), rest)
  {
    ScanExtends(garbled, noise + rest);
    ReceiveStart(s, garbled + (noise + rest));
    assert (garbled + (noise + rest))[|garbled|..] == noise + rest;
    ReceiveQuiet(Step(s, Scan(garbled)), noise, rest);
  }

  /** What arrives is damaged before the number could be read exactly when the length
      or the sequence character reads as a control character. */
  lemma NumberUnread(garbled: seq<byte>)
    requires Scan(garbled).verdict == Rejected && Scan(garbled).used == |garbled|
    ensures Scan(garbled).n.None? <==>
      || (|garbled| == 1 && IsControl(garbled[0]))
      || (|garbled| == 2 && !IsControl(garbled[0]) && IsControl(garbled[1]))
  {
    if |garbled| >= 3 {
      ScanBodyUsed(garbled, Some(UnToChar(garbled[1])), 3, 3, UnToChar(garbled[0]) as int - 2);
      if |garbled| >= 6 {
        ScanBodyUsed(garbled, Some(UnToChar(garbled[1])), 6, 6, LongLength(garbled[3], garbled[4]));
      }
    }
  }
}
