/**
 The log buffer: a ring of 16384 characters in two layouts, and logbuff_printk,
 which works in place in a line buffer and writes level marks over characters it
 has already used. Counters are 32-bit and wrap.
 */
module LogRing {
  import opened LogStream
  import opened Machine

  /** x & LOGBUFF_MASK */
  function Masked(x: nat): nat {
    x % LOGBUFF_LEN
  }

  lemma MaskedSum(x: nat, i: nat)
    ensures Masked((x + i) % WORD) == Masked(x + i)
    ensures Masked(x % WORD + i) == Masked(x + i)
  {
    var q, q' := (x + i) / WORD, x / WORD;
    assert WORD == 262144 * LOGBUFF_LEN;
    assert x + i == (x + i) % WORD + (262144 * q) * LOGBUFF_LEN;
    assert x == x % WORD + (262144 * q') * LOGBUFF_LEN;
    DropMultiple((x + i) % WORD, 262144 * q);
    DropMultiple(x % WORD + i, 262144 * q');
  }

  lemma DropMultiple(a: nat, k: nat)
    ensures (a + k * LOGBUFF_LEN) % LOGBUFF_LEN == a % LOGBUFF_LEN
  {
  }

  lemma MaskedDistinct(x: nat, i: nat, j: nat)
    requires i < j < i + LOGBUFF_LEN
    ensures Masked(x + i) != Masked(x + j)
  {
  }

  /** n characters of a ring, read from `start`. */
  function View(ring: string, start: nat, n: nat): string
    requires |ring| == LOGBUFF_LEN
  {
    seq(n, i requires 0 <= i => ring[Masked(start + i)])
  }

  lemma ViewGrows(ring: string, start: nat, n: nat, c: char)
    requires |ring| == LOGBUFF_LEN && n < LOGBUFF_LEN
    ensures View(ring[Masked(start + n) := c], start, n + 1) == View(ring, start, n) + [c]
  {
    var new' := ring[Masked(start + n) := c];
    forall i | 0 <= i < n + 1
      ensures View(new', start, n + 1)[i] == (View(ring, start, n) + [c])[i]
    {
      if i < n {
        MaskedDistinct(start, i, n);
      }
    }
  }

  lemma ViewSlides(ring: string, start: nat, c: char)
    requires |ring| == LOGBUFF_LEN
    ensures View(ring[Masked(start + LOGBUFF_LEN) := c], (start + 1) % WORD, LOGBUFF_LEN) ==
      View(ring, start, LOGBUFF_LEN)[1..] + [c]
  {
    var new' := ring[Masked(start + LOGBUFF_LEN) := c];
    forall i | 0 <= i < LOGBUFF_LEN
      ensures new'[Masked((start + 1) % WORD + i)] == (View(ring, start, LOGBUFF_LEN)[1..] + [c])[i]
    {
      MaskedSum(start + 1, i);
      assert start + 1 + i == start + (i + 1);
      if i < LOGBUFF_LEN - 1 {
        MaskedDistinct(start, i + 1, LOGBUFF_LEN);
      }
    }
  }

  /** log->v2.end - log->v2.start */
  function Distance(start: nat, end: nat): nat {
    (end - start) % WORD
  }

  /** The end of the second layout, seen from its start. */
  lemma EndFromStart(start: nat, end: nat)
    requires start < WORD && end < WORD && Distance(start, end) <= LOGBUFF_LEN
    ensures Masked(start + Distance(start, end)) == Masked(end)
    ensures Distance(start, (end + 1) % WORD) == Distance(start, end) + 1
    ensures Distance((start + 1) % WORD, (end + 1) % WORD) == Distance(start, end)
  {
    assert (start + Distance(start, end)) % WORD == end;
    MaskedSum(start, Distance(start, end));
  }

  /** A character added to what a ring holds. */
  function Pushed(s: string, c: char): string {
    if |s| < LOGBUFF_LEN then s + [c] else s[1..] + [c]
  }

  /** The stream and the level after this text. */
  function Logged(before: string, level: int, s: string): (string, int) {
    var (out, next) := Stamp(level, s);
    (before + out, next)
  }

  lemma NothingLogged(before: string, level: int)
    ensures Logged(before, level, "") == (before, level)
  {
    assert before + "" == before;
  }

  class LogBuffer {
    const version: int
    const lbuf: array<char>
    const buf: array<char>
    // log->v1: start, size; log->v2: start, end; and chars of either
    var start: nat
    var size: nat
    var end: nat
    var chars: nat
    var msgLevel: int
    ghost var stream: string

    /** How many characters the ring holds. */
    ghost function Length(): nat
      reads this
    {
      if version == 2 then Distance(start, end) else size
    }

    /** The ring read from its start. */
    ghost function Contents(): string
      reads this, lbuf
      requires lbuf.Length == LOGBUFF_LEN
    {
      View(lbuf[..], start, Length())
    }

    ghost predicate Valid()
      reads this, lbuf
    {
      && lbuf.Length == LOGBUFF_LEN && buf.Length == 1024 && lbuf != buf
      && start < WORD && end < WORD && size < WORD
      && Length() <= LOGBUFF_LEN
      && Contents() == Last(stream, LOGBUFF_LEN)
      && chars == |stream| % WORD
      && -1 <= msgLevel <= 7
    }

    constructor (version: int)
      ensures Valid() && fresh(lbuf) && fresh(buf) && this.version == version
      ensures stream == "" && msgLevel == -1
    {
      this.version := version;
      lbuf := new char[LOGBUFF_LEN](_ => '\0');
      buf := new char[1024](_ => '\0');
      start, size, end, chars := 0, 0, 0, 0;
      msgLevel := -1;
      stream := "";
    }

    /** logbuff_reset: the level of an open line is not part of the buffer. */
    method Reset()
      requires Valid()
      modifies this, lbuf
      ensures Valid() && stream == "" && msgLevel == old(msgLevel)
    {
      forall i | 0 <= i < LOGBUFF_LEN {
        lbuf[i] := '\0';
      }
      start, size, end, chars := 0, 0, 0, 0;
      stream := "";
    }

    /** The second layout keeps the end and lets the start follow it. */
    method AppendV2(c: char)
      requires Valid() && version == 2
      modifies lbuf, this`start, this`end
      ensures start < WORD && end < WORD && Length() <= LOGBUFF_LEN
      ensures Contents() == Pushed(old(Contents()), c)
    {
      ghost var ring, n, first := lbuf[..], Length(), start;
      EndFromStart(start, end);
      lbuf[Masked(end)] := c;
      assert lbuf[..] == ring[Masked(first + n) := c];
      end := (end + 1) % WORD;
      if Distance(start, end) > LOGBUFF_LEN {
        start := (start + 1) % WORD;
        ViewSlides(ring, first, c);
      } else {
        ViewGrows(ring, first, n, c);
      }
    }

    /** The first layout keeps the size, and moves the start once it is full. */
    method AppendV1(c: char)
      requires Valid() && version != 2
      modifies lbuf, this`start, this`size
      ensures start < WORD && size < WORD && Length() <= LOGBUFF_LEN
      ensures Contents() == Pushed(old(Contents()), c)
    {
      ghost var ring, n, first := lbuf[..], size, start;
      MaskedSum(start, size);
      lbuf[Masked((start + size) % WORD)] := c;
      assert lbuf[..] == ring[Masked(first + n) := c];
      if size < LOGBUFF_LEN {
        size := size + 1;
        ViewGrows(ring, first, n, c);
      } else {
        start := (start + 1) % WORD;
        ViewSlides(ring, first, c);
      }
    }

    /** One character in the layout of the version. */
    method Append(c: char)
      requires Valid()
      modifies lbuf, this`start, this`size, this`end, this`chars, this`stream
      ensures Valid() && stream == old(stream) + [c]
    {
      LastStep(stream, c);
      if version == 2 {
        AppendV2(c);
      } else {
        AppendV1(c);
      }
      chars := (chars + 1) % WORD;
      stream := stream + [c];
    }

    lemma LastStep(s: string, c: char)
      ensures var last := Last(s, LOGBUFF_LEN);
        Last(s + [c], LOGBUFF_LEN) == Pushed(last, c)
    {
    }

    lemma StampHead(before: string, level: int, s: string)
      requires level >= 0 && s != ""
      ensures Logged(before, level, s) ==
        Logged(before + [s[0]], if s[0] == '\n' then -1 else level, s[1..])
    {
      Assoc(before, [s[0]], Stamp(if s[0] == '\n' then -1 else level, s[1..]).0);
    }

    /** The inner loop: characters up to and including a line feed. */
    method LogLine(p0: nat, bufEnd: nat) returns (p: nat, lineFeed: bool)
      requires Valid() && msgLevel >= 0 && p0 <= bufEnd <= buf.Length
      modifies lbuf, this`start, this`size, this`end, this`chars, this`stream
      ensures Valid() && p0 <= p <= bufEnd && lineFeed == (p < bufEnd) && (lineFeed ==> buf[p] == '\n')
      ensures Logged(old(stream), msgLevel, buf[p0..bufEnd]) ==
        if lineFeed then Logged(stream, -1, buf[p + 1..bufEnd]) else (stream, msgLevel)
    {
      p, lineFeed := p0, false;
      while p < bufEnd
        invariant Valid() && p0 <= p <= bufEnd && !lineFeed
        invariant Logged(old(stream), msgLevel, buf[p0..bufEnd]) == Logged(stream, msgLevel, buf[p..bufEnd])
      {
        assert buf[p..bufEnd][1..] == buf[p + 1..bufEnd];
        StampHead(stream, msgLevel, buf[p..bufEnd]);
        Append(buf[p]);
        if buf[p] == '\n' {
          lineFeed := true;
          return;
        }
        p := p + 1;
      }
      NothingLogged(stream, msgLevel);
    }

    /** Find the level mark of a new line, or write `<4>` over the three
        characters in front of it. */
    method OpenLine(p0: nat, bufEnd: nat, ghost s: string) returns (p: nat)
      requires Valid() && 3 <= p0 < bufEnd < buf.Length && s == buf[p0..bufEnd] && buf[bufEnd] == '\0' && '\0' !in s
      modifies buf, this`msgLevel
      ensures Valid() && msgLevel == LevelOf(s) && p + |TagFor(s)| == p0
      ensures buf[p..bufEnd] == TagFor(s) + s
      ensures forall k :: p0 <= k < buf.Length ==> buf[k] == old(buf[k])
    {
      p := p0;
      assert forall k :: 0 <= k < |s| ==> buf[p + k] == s[k];
      if buf[p] != '<' || buf[p + 1] < '0' || buf[p + 1] > '7' || buf[p + 2] != '>' {
        p := p - 3;
        WriteTag(p);
        assert buf[p..bufEnd] == buf[p..p0] + buf[p0..bufEnd];
      }
      msgLevel := buf[p + 1] as int - '0' as int;
    }

    method WriteTag(p: nat)
      requires p + 3 <= buf.Length
      modifies buf
      ensures buf[p..p + 3] == "<4>" && buf[p + 1] == '4'
      ensures forall k :: 0 <= k < p || p + 3 <= k < buf.Length ==> buf[k] == old(buf[k])
    {
      buf[p] := '<';
      buf[p + 1] := (DEFAULT_LEVEL + '0' as int) as char;
      buf[p + 2] := '>';
    }

    lemma StampOpens(s: string)
      requires s != ""
      ensures Stamp(-1, s) == Stamp(LevelOf(s), TagFor(s) + s)
    {
      ShortTail(LevelOf(s), TagFor(s), s);
    }

    /** What is still to be logged. */
    ghost function Rest(p: nat, bufEnd: nat): string
      reads buf
    {
      if p <= bufEnd <= buf.Length then buf[p..bufEnd] else ""
    }

    /** One turn of the outer loop: the line that starts at p0. */
    method LogFrom(p0: nat, bufEnd: nat) returns (p: nat)
      requires Valid() && 3 <= p0 < bufEnd < buf.Length && buf[bufEnd] == '\0' && '\0' !in buf[p0..bufEnd]
      modifies this`msgLevel, this`start, this`size, this`end, this`chars, this`stream, lbuf, buf
      ensures Valid() && p0 < p <= bufEnd + 1
      ensures forall k :: p0 <= k < buf.Length ==> buf[k] == old(buf[k])
      ensures Logged(old(stream), old(msgLevel), old(buf[p0..bufEnd])) == Logged(stream, msgLevel, Rest(p, bufEnd))
    {
      p := StartLine(p0, bufEnd);
      var lineFeed;
      p, lineFeed := LogLine(p, bufEnd);
      if lineFeed {
        msgLevel := -1;
      } else {
        NothingLogged(stream, msgLevel);
      }
      p := p + 1;
    }

    /** A new line gets its level, an open one keeps it. */
    method StartLine(p0: nat, bufEnd: nat) returns (p: nat)
      requires Valid() && 3 <= p0 < bufEnd < buf.Length && buf[bufEnd] == '\0' && '\0' !in buf[p0..bufEnd]
      modifies buf, this`msgLevel
      ensures Valid() && msgLevel >= 0 && p <= p0
      ensures Logged(stream, old(msgLevel), old(buf[p0..bufEnd])) == Logged(stream, msgLevel, buf[p..bufEnd])
      ensures forall k :: p <= k < p0 ==> buf[k] != '\n'
      ensures forall k :: p0 <= k < buf.Length ==> buf[k] == old(buf[k])
    {
      p := p0;
      if msgLevel < 0 {
        ghost var s := buf[p0..bufEnd];
        StampOpens(s);
        p := OpenLine(p, bufEnd, s);
        forall k | p <= k < p0
          ensures buf[k] != '\n'
        {
          assert buf[k] == buf[p..bufEnd][k - p] == TagFor(s)[k - p];
        }
      }
    }

    /** logbuff_printk. */
    method Printk(line: string) returns (i: nat)
      requires Valid() && '\0' !in line && |line| + 4 <= buf.Length
      modifies this`msgLevel, this`start, this`size, this`end, this`chars, this`stream, lbuf, buf
      ensures Valid() && i == |line|
      ensures (stream, msgLevel) == Logged(old(stream), old(msgLevel), line)
    {
      i := |line|;
      var bufEnd := 3 + i;
      CopyIn(line);
      var p := 3;
      while p < bufEnd
        invariant Valid() && 3 <= p <= bufEnd + 1 && buf[bufEnd] == '\0' && '\0' !in Rest(p, bufEnd)
        invariant Logged(old(stream), old(msgLevel), line) == Logged(stream, msgLevel, Rest(p, bufEnd))
      {
        ghost var p0, rest := p, Rest(p, bufEnd);
        p := LogFrom(p, bufEnd);
        assert Rest(p, bufEnd) == if p <= bufEnd then rest[p - p0..] else "";
      }
      assert Rest(p, bufEnd) == "";
      NothingLogged(stream, msgLevel);
    }

    /** The line with its NUL, behind room for a level mark. */
    method CopyIn(line: string)
      requires |line| + 4 <= buf.Length
      modifies buf
      ensures buf[3..3 + |line|] == line && buf[3 + |line|] == '\0'
    {
      forall k | 0 <= k < |line| {
        buf[3 + k] := line[k];
      }
      buf[3 + |line|] := '\0';
    }

    /** logbuff_putc. */
    method PutC(c: char)
      requires Valid() && c != '\0'
      modifies this`msgLevel, this`start, this`size, this`end, this`chars, this`stream, lbuf, buf
      ensures Valid() && (stream, msgLevel) == Logged(old(stream), old(msgLevel), [c])
    {
      var _ := Printk([c]);
    }

    /** `log append`: although every argument and every separator is logged by a
        call of its own, the buffer gets the line as if it were logged at once. */
    method LogAppend(args: seq<string>)
      requires Valid()
      requires forall i :: 0 <= i < |args| ==> '\0' !in args[i] && |args[i]| + 4 <= buf.Length
      modifies this`msgLevel, this`start, this`size, this`end, this`chars, this`stream, lbuf, buf
      ensures Valid() && (stream, msgLevel) == Logged(old(stream), old(msgLevel), AppendText(args))
    {
      var i := 0;
      while i < |args|
        invariant i <= |args| && Valid()
        invariant Logged(old(stream), old(msgLevel), AppendText(args)) ==
          Logged(stream, msgLevel, AppendText(args[i..]))
      {
        ghost var separator := if i + 1 < |args| then " " else "\n";
        assert args[i..][1..] == args[i + 1..];
        AppendInPieces(stream, msgLevel, args[i], separator, AppendText(args[i + 1..]));
        var _ := Printk(args[i]);
        PutC(if i < |args| - 1 then ' ' else '\n');
        i := i + 1;
      }
      NothingLogged(stream, msgLevel);
    }

    lemma AppendInPieces(before: string, level: int, arg: string, separator: string, rest: string)
      requires separator == " " || (separator == "\n" && rest == "")
      ensures var (mid, level1) := Logged(before, level, arg);
        var (after, level2) := Logged(mid, level1, separator);
        Logged(before, level, arg + separator + rest) == Logged(after, level2, rest)
    {
      var text := arg + separator;
      NoCutAtBlank(level, arg, separator);
      LoggedInPieces(before, level, arg, separator);
      if rest == "" {
        assert text + rest == text;
        NothingLogged(Logged(before, level, text).0, Logged(before, level, text).1);
      } else {
        NoCutAfterBlank(level, text, rest);
        LoggedInPieces(before, level, text, rest);
      }
    }

    lemma LoggedInPieces(before: string, level: int, a: string, b: string)
      requires !CutsTag(level, a, b)
      ensures Logged(before, level, a + b) == Logged(Logged(before, level, a).0, Logged(before, level, a).1, b)
    {
      StampInPieces(level, a, b);
      var (out, next) := Stamp(level, a);
      Assoc(before, out, Stamp(next, b).0);
    }
  }
}
