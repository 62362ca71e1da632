/** Strings cut at a character, and words joined by blanks. */
module Strings {
  /** What stands in front of the first c. */
  function Before(s: string, c: char): string {
    if s == "" || s[0] == c then "" else [s[0]] + Before(s[1..], c)
  }

  lemma {:induction false} BeforeMark(a: string, c: char, b: string)
    requires c !in a
    ensures Before(a + [c] + b, c) == a
  {
    if a == "" {
      assert a + [c] + b == [c] + b;
    } else {
      BeforeMark(a[1..], c, b);
      assert (a + [c] + b)[1..] == a[1..] + [c] + b;
    }
  }

  /** Arguments joined by single blanks. */
  function Joined(args: seq<string>): string {
    var last := |args| - 1;
    if args == [] then "" else if last == 0 then args[0] else Joined(args[..last]) + " " + args[last]
  }

  /** The words between single blanks. */
  function Words(s: string): seq<string>
    decreases |s|
  {
    var word := Before(s, ' ');
    if |word| >= |s| then [word] else [word] + Words(s[|word| + 1..])
  }

  lemma {:induction false} BeforeNone(s: string, c: char)
    requires c !in s
    ensures Before(s, c) == s
  {
    if s != "" {
      BeforeNone(s[1..], c);
    }
  }

  lemma {:induction false} WordsJoin(s: string, word: string)
    requires ' ' !in word
    ensures Words(s + " " + word) == Words(s) + [word]
    decreases |s|
  {
    var first := Before(s, ' ');
    if ' ' !in s {
      BeforeNone(s, ' ');
      BeforeMark(s, ' ', word);
      BeforeNone(word, ' ');
      assert (s + " " + word)[|s| + 1..] == word;
    } else {
      BeforeParts(s);
      var tail := s[|first| + 1..];
      assert s + " " + word == first + " " + (tail + " " + word);
      BeforeMark(first, ' ', tail + " " + word);
      assert (s + " " + word)[|first| + 1..] == tail + " " + word;
      WordsJoin(tail, word);
    }
  }

  lemma {:induction false} BeforeParts(s: string)
    requires ' ' in s
    ensures var first := Before(s, ' ');
      |first| < |s| && ' ' !in first && s == first + " " + s[|first| + 1..]
  {
    if s[0] != ' ' {
      BeforeParts(s[1..]);
    }
  }

  /** The value of `setenv name a b c` is `a b c`: its words are the arguments again. */
  lemma {:induction false} JoinedWords(args: seq<string>)
    requires args != [] && forall i :: 0 <= i < |args| ==> ' ' !in args[i]
    ensures Words(Joined(args)) == args
  {
    var last := |args| - 1;
    if last == 0 {
      BeforeNone(args[0], ' ');
    } else {
      JoinedWords(args[..last]);
      WordsJoin(Joined(args[..last]), args[last]);
    }
  }

  lemma JoinedLast(front: seq<string>, last: string)
    requires front != []
    ensures Joined(front + [last]) == Joined(front) + " " + last
  {
    assert (front + [last])[..|front|] == front;
  }

  lemma {:induction false} JoinedFirst(first: string, rest: seq<string>)
    requires rest != []
    ensures Joined([first] + rest) == first + " " + Joined(rest)
  {
    var all, last := [first] + rest, |rest| - 1;
    if last == 0 {
      assert all[..1] == [first] && all[1] == rest[0];
    } else {
      JoinedFirst(first, rest[..last]);
      assert all[..|all| - 1] == [first] + rest[..last];
    }
  }
}
