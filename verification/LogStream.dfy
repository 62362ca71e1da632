/**
 What the log buffer is supposed to hold: the stream of logged characters with
 a level in front of every line, and of that stream the last LOGBUFF_LEN.
 */
module LogStream {
  import opened Strings

  const LOGBUFF_LEN := 16384
  const DEFAULT_LEVEL := 4

  /** A level mark, one of `<0>` to `<7>`. */
  predicate HasTag(s: string) {
    |s| >= 3 && s[0] == '<' && '0' <= s[1] <= '7' && s[2] == '>'
  }

  /** The level of the line that a text starts with. */
  function LevelOf(s: string): int {
    if HasTag(s) then s[1] as int - '0' as int else DEFAULT_LEVEL
  }

  /** The mark of level d. */
  function Tag(d: nat): string
    requires d < 8
  {
    "<" + ["01234567"[d]] + ">"
  }

  lemma TagMeans(s: string)
    ensures HasTag(s) <==> exists d: nat :: d < 8 && Tag(d) <= s
    ensures forall d: nat :: d < 8 && Tag(d) <= s ==> LevelOf(s) == d
    ensures (forall d: nat :: d < 8 ==> !(Tag(d) <= s)) ==> LevelOf(s) == 4
  {
    if HasTag(s) {
      var d: nat := s[1] as int - '0' as int;
      assert Tag(d)[1] == s[1];
      assert Tag(d) <= s;
    }
    forall d: nat | d < 8 && Tag(d) <= s
      ensures HasTag(s) && LevelOf(s) == d
    {
      assert s[0] == Tag(d)[0] && s[1] == Tag(d)[1] && s[2] == Tag(d)[2];
    }
  }

  function TagFor(s: string): string {
    if HasTag(s) then "" else "<4>"
  }

  /** In the stream a line begins with the mark of its level, whether it brought one or not, and
      goes on with its text. */
  lemma TagForMeans(s: string)
    ensures 0 <= LevelOf(s) < 8 && TagFor(s) + s == Tag(LevelOf(s)) + (if HasTag(s) then s[3..] else s)
  {
    if HasTag(s) {
      var d := LevelOf(s);
      assert "01234567"[d] == s[1];
      assert Tag(d) == s[..3];
    }
  }

  /** What a text adds to the stream. `level` is that of the line left open by
      earlier texts, or -1 when a new line begins; the answer holds the level for
      the next text. */
  function Stamp(level: int, s: string): (string, int)
    decreases |s|, if level < 0 then 1 else 0
  {
    if s == "" then ("", level)
    else if level < 0 then
      var (out, next) := Stamp(LevelOf(s), s);
      (TagFor(s) + out, next)
    else
      var (out, next) := Stamp(if s[0] == '\n' then -1 else level, s[1..]);
      ([s[0]] + out, next)
  }

  /** The last n elements. */
  function Last(s: string, n: nat): string {
    if |s| <= n then s else s[|s| - n..]
  }

  // ------------------------------------------------------ lines, reference

  /** The text cut behind every line feed. */
  function Lines(s: string): seq<string> {
    if s == "" then []
    else if s[0] == '\n' then ["\n"] + Lines(s[1..])
    else
      var rest := Lines(s[1..]);
      if rest == [] then [[s[0]]] else [[s[0]] + rest[0]] + rest[1..]
  }

  function Join(lines: seq<string>): string {
    if lines == [] then "" else lines[0] + Join(lines[1..])
  }

  /** Every line with a level mark: its own, or `<4>` in front of it. */
  function Marked(lines: seq<string>): string {
    if lines == [] then "" else TagFor(lines[0]) + lines[0] + Marked(lines[1..])
  }

  /** How one character changes the lines behind it. */
  lemma LinesStep(s: string)
    requires s != ""
    ensures Lines(s) != []
    ensures var rest := Lines(s[1..]);
      if s[0] == '\n' then Lines(s)[0] == "\n" && Lines(s)[1..] == rest
      else if rest == [] then Lines(s)[0] == [s[0]] && Lines(s)[1..] == []
      else Lines(s)[0] == [s[0]] + rest[0] && Lines(s)[1..] == rest[1..]
  {
  }

  lemma Assoc(a: string, b: string, c: string)
    ensures (a + b) + c == a + (b + c)
  {
  }

  lemma {:induction false} LinesJoin(s: string)
    ensures Join(Lines(s)) == s && (s != "" ==> Lines(s) != [] && Lines(s)[0] != "" && Lines(s)[0][0] == s[0])
  {
    if s != "" {
      LinesStep(s);
      LinesJoin(s[1..]);
      var rest := Lines(s[1..]);
      assert s == [s[0]] + s[1..];
      if s[0] != '\n' && rest != [] {
        Assoc([s[0]], rest[0], Join(rest[1..]));
      }
    }
  }

  /** The first line up to its third character is what the text begins with. */
  lemma {:induction false} FirstLinePrefix(s: string)
    requires s != ""
    ensures Lines(s) != [] && Lines(s)[0] != "" && Lines(s)[0] <= s
    ensures |Lines(s)[0]| < |s| ==> Lines(s)[0][|Lines(s)[0]| - 1] == '\n'
  {
    if s[0] != '\n' && |s| > 1 {
      FirstLinePrefix(s[1..]);
    }
  }

  lemma TagOfFirstLine(s: string)
    requires s != ""
    ensures Lines(s) != [] && HasTag(Lines(s)[0]) == HasTag(s)
  {
    FirstLinePrefix(s);
  }

  lemma StampStep(level: int, s: string)
    requires level >= 0 && s != ""
    ensures Stamp(level, s).0 == [s[0]] + Stamp(if s[0] == '\n' then -1 else level, s[1..]).0
  {
  }

  /** An open line runs to its line feed; the level it has does not show. */
  lemma {:induction false} StampOpenLine(level: int, s: string)
    requires level >= 0 && s != ""
    ensures Lines(s) != []
    ensures Stamp(level, s).0 == Lines(s)[0] + Stamp(-1, Join(Lines(s)[1..])).0
  {
    LinesStep(s);
    StampStep(level, s);
    LinesJoin(s[1..]);
    var rest := Lines(s[1..]);
    if s[0] != '\n' {
      if rest == [] {
        assert s[1..] == "";
      } else {
        StampOpenLine(level, s[1..]);
        Assoc([s[0]], rest[0], Stamp(-1, Join(rest[1..])).0);
      }
    }
  }

  lemma {:induction false} LinesOfRest(s: string)
    requires s != ""
    ensures Lines(s) != [] && Lines(Join(Lines(s)[1..])) == Lines(s)[1..]
    ensures |Join(Lines(s)[1..])| < |s|
  {
    LinesStep(s);
    LinesJoin(s[1..]);
    if s[0] != '\n' && Lines(s[1..]) != [] {
      LinesOfRest(s[1..]);
    }
  }

  lemma MarkStep(s: string, rest: string)
    requires s != "" && Lines(s) != [] && Marked(Lines(s)[1..]) == rest
    requires Stamp(LevelOf(s), s).0 == Lines(s)[0] + rest
    ensures Stamp(-1, s).0 == Marked(Lines(s))
  {
    TagOfFirstLine(s);
    Assoc(TagFor(s), Lines(s)[0], rest);
  }

  /** Main theorem on the text: a new text is logged line by line, each line
      with its own level mark or with `<4>`. */
  lemma {:induction false} StampMarksEveryLine(s: string)
    ensures Stamp(-1, s).0 == Marked(Lines(s))
    decreases |s|
  {
    if s != "" {
      StampOpenLine(LevelOf(s), s);
      LinesOfRest(s);
      StampMarksEveryLine(Join(Lines(s)[1..]));
      MarkStep(s, Marked(Lines(s)[1..]));
    }
  }

  // ------------------------------------------------- texts in several pieces

  lemma {:induction false} StampSameText(l: int, l': int, s: string)
    requires l >= 0 && l' >= 0
    ensures Stamp(l, s).0 == Stamp(l', s).0
  {
    if s != "" && s[0] != '\n' {
      StampSameText(l, l', s[1..]);
    }
  }

  /** Cutting a text into a and b goes through a level mark. */
  predicate CutsTag(level: int, a: string, b: string)
    decreases |a|, if level < 0 then 1 else 0
  {
    if a == "" then false
    else if level < 0 then (!HasTag(a) && HasTag(a + b)) || CutsTag(LevelOf(a), a, b)
    else CutsTag(if a[0] == '\n' then -1 else level, a[1..], b)
  }

  lemma {:induction false} NoCutInLine(level: int, a: string, b: string)
    requires level >= 0 && '\n' !in a
    ensures !CutsTag(level, a, b)
  {
    if a != "" {
      NoCutInLine(level, a[1..], b);
    }
  }

  lemma {:induction false} OpenText(level: int, a: string)
    requires level >= 0 && '\n' !in a
    ensures Stamp(level, a) == (a, level)
  {
    if a != "" {
      OpenText(level, a[1..]);
      assert [a[0]] + a[1..] == a;
    }
  }

  lemma {:induction false} OpenThen(level: int, a: string, b: string)
    requires level >= 0 && '\n' !in a
    ensures Stamp(level, a + b) == (a + Stamp(level, b).0, Stamp(level, b).1)
  {
    if a == "" {
      assert a + b == b && a + Stamp(level, b).0 == Stamp(level, b).0;
    } else {
      OpenThen(level, a[1..], b);
      assert (a + b)[0] == a[0] && (a + b)[1..] == a[1..] + b;
      assert [a[0]] + a[1..] == a;
      Assoc([a[0]], a[1..], Stamp(level, b).0);
    }
  }

  lemma ShortTail(level: int, a: string, b: string)
    requires level >= 0 && '\n' !in a
    ensures !CutsTag(level, a, b) && Stamp(level, a) == (a, level)
    ensures Stamp(level, a + b) == (a + Stamp(level, b).0, Stamp(level, b).1)
  {
    NoCutInLine(level, a, b);
    OpenText(level, a);
    OpenThen(level, a, b);
  }

  /** A text logged in two calls gives the same stream as in one call exactly
      when the cut does not go through a level mark; a line left open continues
      without a second mark. */
  lemma {:induction false} StampInPieces(level: int, a: string, b: string)
    ensures var (out, next) := Stamp(level, a);
      && ((Stamp(level, a + b).0 == out + Stamp(next, b).0) <==> !CutsTag(level, a, b))
      && (!CutsTag(level, a, b) ==> Stamp(level, a + b).1 == Stamp(next, b).1)
    decreases |a|, if level < 0 then 1 else 0
  {
    var (out, next) := Stamp(level, a);
    if a == "" {
      assert a + b == b && out + Stamp(next, b).0 == Stamp(next, b).0;
    } else if level < 0 {
      var inner := Stamp(LevelOf(a), a);
      StampInPieces(LevelOf(a), a, b);
      if !HasTag(a) && HasTag(a + b) {
        assert '\n' !in a by {
          assert forall i :: 0 <= i < |a| ==> a[i] == (a + b)[i];
        }
        ShortTail(LevelOf(a), a, b);
        ShortTail(LevelOf(a + b), a, b);
        StampSameText(LevelOf(a), LevelOf(a + b), b);
        assert |Stamp(level, a + b).0| == |a| + |Stamp(LevelOf(a), b).0|;
      } else {
        assert HasTag(a + b) == HasTag(a);
        assert LevelOf(a + b) == LevelOf(a);
        Prepend(TagFor(a), inner.0, Stamp(next, b).0, Stamp(LevelOf(a), a + b).0);
      }
    } else {
      assert (a + b)[1..] == a[1..] + b;
      var level' := if a[0] == '\n' then -1 else level;
      StampInPieces(level', a[1..], b);
      Prepend([a[0]], Stamp(level', a[1..]).0, Stamp(next, b).0, Stamp(level', a[1..] + b).0);
    }
  }

  lemma Prepend(t: string, x: string, y: string, z: string)
    ensures z == x + y <==> t + z == (t + x) + y
  {
    if t + z == (t + x) + y {
      assert (t + z)[|t|..] == z;
      assert ((t + x) + y)[|t|..] == x + y;
    }
  }

  /** No level mark goes on with a blank or a line feed. */
  lemma {:induction false} NoCutAtBlank(level: int, a: string, b: string)
    requires b != "" && (b[0] == ' ' || b[0] == '\n')
    ensures !CutsTag(level, a, b)
    decreases |a|, if level < 0 then 1 else 0
  {
    if a != "" {
      if level < 0 {
        assert (a + b)[|a|] == b[0];
        assert forall i :: 0 <= i < |a| ==> (a + b)[i] == a[i];
        NoCutAtBlank(LevelOf(a), a, b);
      } else {
        NoCutAtBlank(if a[0] == '\n' then -1 else level, a[1..], b);
      }
    }
  }

  /** After a blank the line is open, so nothing is cut there either. */
  lemma {:induction false} NoCutAfterBlank(level: int, a: string, b: string)
    requires a != "" && a[|a| - 1] == ' '
    ensures !CutsTag(level, a, b)
    decreases |a|, if level < 0 then 1 else 0
  {
    if level < 0 {
      assert (a + b)[|a| - 1] == ' ';
      assert forall i :: 0 <= i < |a| ==> (a + b)[i] == a[i];
      NoCutAfterBlank(LevelOf(a), a, b);
    } else if |a| > 1 {
      NoCutAfterBlank(if a[0] == '\n' then -1 else level, a[1..], b);
    } else {
      assert !CutsTag(level, a[1..], b);
    }
  }

  /** The text of `log append`: the arguments separated by blanks, as a line. */
  function AppendText(args: seq<string>): string {
    if args == [] then ""
    else args[0] + (if |args| > 1 then " " else "\n") + AppendText(args[1..])
  }

  lemma {:induction false} AppendIsJoined(args: seq<string>)
    requires args != []
    ensures AppendText(args) == Joined(args) + "\n"
  {
    assert args == [args[0]] + args[1..];
    if |args| > 1 {
      AppendIsJoined(args[1..]);
      JoinedFirst(args[0], args[1..]);
      assert args[0] + " " + (Joined(args[1..]) + "\n") == args[0] + " " + Joined(args[1..]) + "\n";
    }
  }

  /** No level behind a line feed, else that of the last line. */
  function LeftBy(level: int, s: string): int
    requires s != ""
  {
    if s[|s| - 1] == '\n' then -1
    else if level >= 0 && '\n' !in s then level
    else if Lines(s) == [] then -1
    else LevelOf(Lines(s)[|Lines(s)| - 1])
  }

  lemma LeftByNew(s: string)
    requires s != ""
    ensures LeftBy(-1, s) == LeftBy(LevelOf(s), s)
  {
    if '\n' !in s {
      OneLine(s);
    }
  }

  lemma LeftByNext(level: int, s: string)
    requires level >= 0 && |s| > 1
    ensures LeftBy(level, s) == LeftBy(if s[0] == '\n' then -1 else level, s[1..])
  {
    LastLine(s);
  }

  /** The level that a text leaves behind for the next one. */
  lemma {:induction false} StampLeaves(level: int, s: string)
    requires s != "" && level >= -1
    ensures Stamp(level, s).1 == LeftBy(level, s)
    decreases |s|, if level < 0 then 1 else 0
  {
    if level < 0 {
      StampLeaves(LevelOf(s), s);
      LeftByNew(s);
    } else if |s| == 1 {
      assert s[1..] == "";
    } else {
      StampLeaves(if s[0] == '\n' then -1 else level, s[1..]);
      LeftByNext(level, s);
    }
  }

  /** The last line of what follows the first character is the last line, unless it is all that
      follows and open. */
  lemma LastLine(s: string)
    requires |s| > 1
    ensures var rest := Lines(s[1..]);
      && Lines(s) != [] && rest != [] && Lines(s)[|Lines(s)| - 1] != ""
      && (Lines(s)[|Lines(s)| - 1] == rest[|rest| - 1] ||
          (s[0] != '\n' && ('\n' in s[1..] ==> s[|s| - 1] == '\n')))
  {
    var rest := Lines(s[1..]);
    LinesStep(s);
    LinesJoin(s[1..]);
    if |rest| > 1 {
      assert Lines(s)[|Lines(s)| - 1] == rest[|rest| - 1];
      LastNotEmpty(s[1..]);
    } else if '\n' in s[1..] {
      SingleLineEnds(s[1..]);
    }
  }

  lemma {:induction false} LastNotEmpty(s: string)
    requires s != ""
    ensures Lines(s) != [] && Lines(s)[|Lines(s)| - 1] != ""
  {
    LinesStep(s);
    if |s| > 1 {
      LastNotEmpty(s[1..]);
    }
  }

  lemma {:induction false} SingleLineEnds(s: string)
    requires '\n' in s && |Lines(s)| == 1
    ensures s[|s| - 1] == '\n'
  {
    LinesStep(s);
    LinesJoin(s[1..]);
    if s[0] != '\n' {
      SingleLineEnds(s[1..]);
    }
  }

  lemma {:induction false} OneLine(s: string)
    requires s != "" && '\n' !in s
    ensures Lines(s) == [s]
  {
    if |s| > 1 {
      OneLine(s[1..]);
      assert s == [s[0]] + s[1..];
    } else {
      assert s[1..] == "" && Lines("") == [] && s == [s[0]];
    }
  }
}
