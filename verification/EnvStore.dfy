/**
 The environment buffer of the boot loader: `name=value` strings closed by NUL,
 the list closed by a second NUL, edited in place. Every operation is tied to
 its meaning on the list of variables (module EnvList).
 */
module EnvStore {
  import opened Machine
  import opened Wrappers
  import opened EnvList
  import opened Strings

  /** Reading a name part off character by character: after j equal characters
      the next one decides. */
  lemma NamePartStep(s: string, name: string, j: nat)
    requires '=' !in name && j <= |name| && j <= |s| && s[..j] == name[..j]
    ensures j == |name| ==> (NamePart(s) == name <==> j == |s| || s[j] == '=')
    ensures j < |name| && (j == |s| || s[j] != name[j]) ==> NamePart(s) != name
  {
    NamePartPrefix(s, j);
    assert name == name[..j] + name[j..];
    assert j < |s| ==> s[j..][0] == s[j];
    assert NamePart(s) == name <==> NamePart(s[j..]) == name[j..] by {
      assert |s[..j]| == |name[..j]|;
      assert (s[..j] + NamePart(s[j..]))[j..] == NamePart(s[j..]);
    }
  }

  /** The characters the arguments take with one separator in front of each. */
  function JoinedLength(args: seq<string>): nat {
    var last := |args| - 1;
    if args == [] then 0 else JoinedLength(args[..last]) + |args[last]| + 1
  }

  lemma {:induction false} JoinedLengthIs(args: seq<string>)
    requires args != []
    ensures JoinedLength(args) == |Joined(args)| + 1
  {
    if |args| > 1 {
      JoinedLengthIs(args[..|args| - 1]);
    }
  }

  lemma {:induction false} JoinedLengthMonotone(args: seq<string>, i: nat)
    requires i <= |args|
    ensures JoinedLength(args[..i]) <= JoinedLength(args)
    decreases |args| - i
  {
    if i < |args| {
      JoinedLengthMonotone(args, i + 1);
      assert args[..i + 1][..i] == args[..i];
    } else {
      assert args[..i] == args;
    }
  }

  /** What CopyArgs makes of the arguments. */
  function Copied(args: seq<string>): string {
    if args == [] then "" else "=" + Joined(args)
  }

  lemma CopiedStep(args: seq<string>, i: nat)
    requires i < |args|
    ensures |Copied(args[..i])| == JoinedLength(args[..i])
    ensures JoinedLength(args[..i + 1]) == JoinedLength(args[..i]) + 1 + |args[i]| <= JoinedLength(args)
    ensures Copied(args[..i + 1]) == Copied(args[..i]) + [if i == 0 then '=' else ' '] + args[i]
  {
    JoinedLengthMonotone(args, i + 1);
    assert args[..i + 1] == args[..i] + [args[i]];
    CopiedMore(args[..i], args[i]);
  }

  lemma JoinedLengthMore(front: seq<string>, arg: string)
    ensures JoinedLength(front + [arg]) == JoinedLength(front) + 1 + |arg|
  {
    assert (front + [arg])[..|front|] == front;
  }

  lemma CopiedMore(front: seq<string>, arg: string)
    ensures |Copied(front)| == JoinedLength(front)
    ensures JoinedLength(front + [arg]) == JoinedLength(front) + 1 + |arg|
    ensures Copied(front + [arg]) == Copied(front) + [if front == [] then '=' else ' '] + arg
  {
    JoinedLengthMore(front, arg);
    if front == [] {
      assert front + [arg] == [arg];
    } else {
      JoinedLengthIs(front);
      JoinedLast(front, arg);
      Glue(Joined(front), arg);
    }
  }

  lemma Glue(front: string, arg: string)
    ensures "=" + (front + " " + arg) == "=" + front + " " + arg
  {
  }

  /** strlen(name) + 2, and strlen + 1 for every argument. */
  method NeededLength(name: string, args: seq<string>) returns (len: nat)
    ensures len == |name| + 2 + JoinedLength(args)
  {
    len := |name| + 2;
    for i := 0 to |args|
      invariant len == |name| + 2 + JoinedLength(args[..i])
    {
      len := len + |args[i]| + 1;
      assert args[..i + 1][..i] == args[..i];
    }
    assert args[..|args|] == args;
  }

  class Environment {
    const cfg: Config
    const checksum: seq<char> -> int
    const data: array<char>
    var crc: int
    var envId: int
    ghost var vars: seq<Entry>

    /** The buffer begins with the rendered variables and their end mark. */
    ghost predicate Valid()
      reads this, data
    {
      && data.Length >= 2
      && WellFormed(vars)
      && Here(0, Image(vars))
    }

    /** s stands in the buffer at this index. */
    ghost predicate Here(at: nat, s: string)
      reads data
    {
      at + |s| <= data.Length && forall j :: 0 <= j < |s| ==> data[at + j] == s[j]
    }

    /** A C string stands here. */
    ghost predicate StringAt(at: nat, s: string)
      reads data
    {
      at + |s| < data.Length && Here(at, s) && data[at + |s|] == '\0'
    }

    /** An entry of this name begins here. */
    ghost predicate NameAt(at: nat, name: string)
      reads data
    {
      ValidName(name) && at + |name| < data.Length && Here(at, name) && data[at + |name|] == '='
    }

    /** The first character of entry k; one past the last entry for k == |vars|. */
    ghost function Start(k: nat): nat
      reads this
      requires k <= |vars|
    {
      |Render(vars[..k])|
    }

    constructor (cfg: Config, size: nat, checksum: seq<char> -> int)
      requires size >= 2
      ensures Valid() && fresh(data) && data.Length == size && vars == []
      ensures this.cfg == cfg && this.checksum == checksum && envId == 1
      ensures crc == checksum(data[..])
    {
      this.cfg := cfg;
      this.checksum := checksum;
      data := new char[size](_ => '\0');
      envId := 1;
      vars := [];
      new;
      crc := checksum(data[..]);
    }

    lemma HereParts(at: nat, a: string, b: string)
      ensures Here(at, a + b) <==> Here(at, a) && Here(at + |a|, b)
    {
      var ab := a + b;
      if Here(at, ab) {
        forall j | 0 <= j < |a|
          ensures data[at + j] == a[j]
        {
          assert ab[j] == a[j];
        }
        forall j | 0 <= j < |b|
          ensures data[at + |a| + j] == b[j]
        {
          assert ab[|a| + j] == b[j];
        }
      }
      if Here(at, a) && Here(at + |a|, b) {
        forall j | 0 <= j < |ab|
          ensures data[at + j] == ab[j]
        {
          if j >= |a| {
            assert ab[j] == b[j - |a|];
          }
        }
      }
    }

    lemma StringHere(at: nat, s: string)
      ensures StringAt(at, s) <==> Here(at, s + "\0")
    {
      HereParts(at, s, "\0");
      assert "\0"[0] == '\0';
      assert Here(at + |s|, "\0") <==> at + |s| < data.Length && data[at + |s| + 0] == '\0';
    }

    /** The text in front of entry k, the entry, and the text behind it. */
    lemma EntryAt(k: nat)
      requires Valid() && k < |vars|
      ensures Start(k + 1) == Start(k) + |Text(vars[k])| + 1
      ensures Here(0, Render(vars[..k])) && StringAt(Start(k), Text(vars[k]))
      ensures StringAt(Start(k + 1), Render(vars[k + 1..]))
    {
      var front, cell, back := Render(vars[..k]), Cell(vars[k]), Render(vars[k + 1..]);
      RenderSplit(vars, k);
      assert Image(vars) == front + (cell + (back + "\0"));
      HereParts(0, front, cell + (back + "\0"));
      HereParts(|front|, cell, back + "\0");
      StringHere(Start(k), Text(vars[k]));
      StringHere(Start(k + 1), back);
    }

    lemma CharsOfEntry(k: nat)
      requires Valid() && k < |vars|
      ensures NameAt(Start(k), vars[k].name)
    {
      EntryAt(k);
      TextParts(Start(k), vars[k]);
    }

    lemma ValueOfEntry(k: nat)
      requires Valid() && k < |vars|
      ensures CString(vars[k].value) && StringAt(Start(k) + |vars[k].name| + 1, vars[k].value)
    {
      EntryAt(k);
      TextParts(Start(k), vars[k]);
    }

    lemma TextParts(at: nat, e: Entry)
      requires StringAt(at, Text(e)) && ValidEntry(e)
      ensures NameAt(at, e.name) && StringAt(at + |e.name| + 1, e.value)
    {
      assert Text(e) == (e.name + "=") + e.value;
      HereParts(at, e.name + "=", e.value);
      assert (e.name + "=")[|e.name|] == '=';
      HereParts(at, e.name, "=");
    }

    lemma TextOfEntry(k: nat)
      requires Valid() && k < |vars|
      ensures Start(k) < Start(k + 1) - 1 < data.Length - 1 && data[Start(k + 1) - 1] == '\0'
      ensures forall j :: Start(k) <= j < Start(k + 1) - 1 ==> data[j] != '\0'
    {
      EntryAt(k);
      NoNul(Start(k), vars[k]);
    }

    lemma NoNul(at: nat, e: Entry)
      requires Here(at, Text(e)) && ValidEntry(e)
      ensures |Text(e)| > 0 && forall j :: at <= j < at + |Text(e)| ==> data[j] != '\0'
    {
      var text := Text(e);
      forall j | at <= j < at + |text|
        ensures data[j] != '\0'
      {
        assert data[j] == text[j - at] && text[j - at] in text;
      }
    }

    /** Behind entry k comes the end of the list or another entry. */
    lemma BehindEntry(k: nat)
      requires Valid() && k < |vars|
      ensures Start(k + 1) < data.Length
      ensures data[Start(k + 1)] == '\0' <==> Render(vars[k + 1..]) == ""
      ensures Terminated(Render(vars[k + 1..])) && NoPair(Render(vars[k + 1..]))
    {
      EntryAt(k);
      NoDoubleNul(vars[k + 1..]);
      FirstChar(Start(k + 1), Render(vars[k + 1..]));
    }

    lemma FirstChar(at: nat, s: string)
      requires StringAt(at, s) && Terminated(s)
      ensures data[at] == '\0' <==> s == ""
    {
      if s != "" {
        assert data[at + 0] == s[0];
      }
    }

    /** The list without entry k. */
    lemma CutList(k: nat)
      requires WellFormed(vars) && k < |vars|
      ensures var left := vars[..k] + vars[k + 1..];
        && WellFormed(left)
        && Render(left) == Render(vars[..k]) + Render(vars[k + 1..])
        && (left == [] <==> Render(left) == "")
    {
      RenderConcat(vars[..k], vars[k + 1..]);
    }

    lemma EndMark()
      requires Valid()
      ensures Start(|vars|) + 1 <= |Image(vars)| <= data.Length
      ensures Here(0, Render(vars)) && data[Start(|vars|)] == '\0'
    {
      assert vars[..|vars|] == vars;
      assert Image(vars)[|Render(vars)|] == '\0';
      var behind := if vars == [] then "\0\0" else "\0";
      assert Image(vars) == Render(vars) + behind;
      HereParts(0, Render(vars), behind);
    }

    lemma StartOf(k: nat)
      requires Valid() && k <= |vars|
      ensures Start(k) < data.Length
      ensures data[Start(k)] == '\0' <==> k == |vars|
    {
      if k < |vars| { TextOfEntry(k); } else { EndMark(); }
    }

    /** envmatch: s1 is a name or a `name=value` pair; a match with the entry at i2
        answers the index of the value. */
    method EnvMatch(s1: string, i2: nat, ghost name: string) returns (r: int)
      requires CString(s1) && NameAt(i2, name)
      ensures r == if NamePart(s1) == name then i2 + |name| + 1 else -1
    {
      var j := 0;
      while CharAt(s1, j) == data[i2 + j]
        invariant j <= |s1| && j <= |name| && s1[..j] == name[..j]
        decreases |s1| - j
      {
        NamePartStep(s1, name, j);
        assert j < |name| ==> name[j] != '=' && data[i2 + j] == name[j];
        if CharAt(s1, j) == '=' {
          return i2 + j + 1;
        }
        j := j + 1;
      }
      NamePartStep(s1, name, j);
      assert j < |name| ==> name[j] != '=' && data[i2 + j] == name[j];
      if CharAt(s1, j) == '\0' && data[i2 + j] == '=' {
        return i2 + j + 1;
      }
      return -1;
    }

    /** The search loop at the head of _do_setenv: the matching entry, the index
        of its value and of the NUL that closes it. */
    method FindEntry(s: string) returns (oldval: int, env: nat, nxt: nat, ghost k: nat)
      requires Valid() && CString(s)
      ensures k <= |vars| && env == Start(k)
      ensures forall i :: 0 <= i < k ==> vars[i].name != NamePart(s)
      ensures oldval < 0 ==> k == |vars|
      ensures oldval >= 0 ==> k < |vars| && vars[k].name == NamePart(s) && nxt == Start(k + 1) - 1
      ensures oldval >= 0 ==> oldval == env + |vars[k].name| + 1
    {
      oldval, env, nxt, k := -1, 0, 0, 0;
      StartOf(0);
      while data[env] != '\0'
        invariant k <= |vars| && env == Start(k) < data.Length
        invariant data[env] == '\0' <==> k == |vars|
        invariant oldval == -1
        invariant forall i :: 0 <= i < k ==> vars[i].name != NamePart(s)
        decreases |vars| - k
      {
        nxt := SkipString(env, k);
        CharsOfEntry(k);
        oldval := EnvMatch(s, env, vars[k].name);
        if oldval >= 0 {
          return;
        }
        env, k := nxt + 1, k + 1;
        StartOf(k);
      }
    }

    /** Walk to the NUL that closes the string at `from`. */
    method SkipString(from: nat, ghost k: nat) returns (nxt: nat)
      requires Valid() && k < |vars| && from == Start(k)
      ensures from < nxt == Start(k + 1) - 1 < data.Length - 1
    {
      TextOfEntry(k);
      nxt := from;
      while data[nxt] != '\0'
        invariant from <= nxt <= Start(k + 1) - 1
        decreases Start(k + 1) - nxt
      {
        nxt := nxt + 1;
      }
    }

    /** The copy loop of the deletion: move `back`, which ends at the double NUL,
        down to env0. */
    method ShiftDown(env0: nat, nxt0: nat, ghost back: string) returns (env: nat)
      requires env0 < nxt0 && back != "" && StringAt(nxt0, back)
      requires Terminated(back) && NoPair(back)
      modifies data
      ensures env + 1 == env0 + |back| && Here(env0, back)
      ensures forall j :: 0 <= j < env0 ==> data[j] == old(data[j])
    {
      env := env0;
      var nxt := nxt0;
      while true
        invariant env0 <= env < env0 + |back| && nxt - env == nxt0 - env0
        invariant forall j :: 0 <= j < env0 ==> data[j] == old(data[j])
        invariant forall j :: 0 <= j < env - env0 ==> data[env0 + j] == back[j]
        invariant forall j :: env <= j < data.Length ==> data[j] == old(data[j])
        decreases nxt0 + |back| - nxt
      {
        ghost var i := env - env0;
        assert data[nxt] == old(data[nxt0 + i]) == back[i];
        data[env] := data[nxt];
        nxt := nxt + 1;
        assert i + 1 < |back| ==> data[nxt] == old(data[nxt0 + (i + 1)]) == back[i + 1];
        if data[env] == '\0' && data[nxt] == '\0' {
          break;
        }
        env := env + 1;
      }
    }

    /** Cut out entry k, which stands between `env` and the NUL at `nxt`. */
    method DeleteEntry(env0: nat, nxt0: nat, ghost k: nat)
      requires Valid() && k < |vars| && env0 == Start(k) && nxt0 == Start(k + 1) - 1
      modifies data, this`vars
      ensures Valid() && vars == old(vars[..k] + vars[k + 1..])
    {
      ghost var left := vars[..k] + vars[k + 1..];
      EntryAt(k);
      BehindEntry(k);
      CutList(k);
      var env := CutText(env0, nxt0 + 1, Render(vars[..k]), Render(vars[k + 1..]));
      Close(env, left);
    }

    /** The rest of the list follows the front, or the front is the whole list; the
        answer is where the second NUL belongs. */
    method CutText(env0: nat, nxt: nat, ghost front: string, ghost back: string) returns (env: nat)
      requires Here(0, front) && env0 == |front| < nxt && StringAt(nxt, back)
      requires data[nxt] == '\0' <==> back == ""
      requires Terminated(back) && NoPair(back)
      modifies data
      ensures env < data.Length && env == (if front + back == "" then 1 else |front + back|)
      ensures Here(0, front + back) && (front + back == "" ==> data[0] == '\0')
    {
      env := env0;
      if data[nxt] == '\0' {
        assert front + back == front;
        if env > 0 {
          env := env - 1;
        } else {
          data[env] := '\0';
        }
      } else {
        env := ShiftDown(env, nxt, back);
        HereParts(0, front, back);
      }
      env := env + 1;
    }

    /** The second NUL of the pair that ends the list. */
    method Close(env: nat, ghost left: seq<Entry>)
      requires data.Length >= 2 && WellFormed(left) && Here(0, Render(left))
      requires env < data.Length && env == if left == [] then 1 else |Render(left)|
      requires left == [] ==> data[0] == '\0'
      modifies data, this`vars
      ensures Valid() && vars == left
    {
      data[env] := '\0';
      vars := left;
      HereParts(0, Render(left), "\0");
    }

    /** The first free position: 0, or the character after the last NUL. */
    method FindEnd() returns (env: nat)
      requires Valid()
      ensures env == |Render(vars)| < data.Length && Here(0, Render(vars))
    {
      ghost var image := Image(vars);
      NoDoubleNul(vars);
      EndMark();
      assert vars[..|vars|] == vars;
      assert forall j :: 0 <= j < |image| ==> data[j] == image[j];
      env := 0;
      while data[env] != '\0' || data[env + 1] != '\0'
        invariant env <= if vars == [] then 0 else |Render(vars)| - 1
        decreases data.Length - env
      {
        env := env + 1;
      }
      if env > 0 {
        env := env + 1;
      }
    }

    /** Copy a C string with its NUL; the answer is the index of the NUL. */
    method CopyString(s: string, from: nat) returns (env: nat)
      requires CString(s) && from + |s| < data.Length
      modifies data
      ensures env == from + |s| && StringAt(from, s)
      ensures forall j :: 0 <= j < from ==> data[j] == old(data[j])
    {
      env := from;
      data[env] := CharAt(s, 0);
      while data[env] != '\0'
        invariant from <= env <= from + |s|
        invariant forall j :: 0 <= j < from ==> data[j] == old(data[j])
        invariant forall j :: 0 <= j < env - from ==> data[from + j] == s[j]
        invariant data[env] == CharAt(s, env - from)
        decreases from + |s| - env
      {
        env := env + 1;
        data[env] := CharAt(s, env - from);
      }
    }

    /** The length test and the copying of name, '=' and the arguments. */
    method AppendEntry(name: string, args: seq<string>) returns (fits: bool)
      requires Valid() && ValidName(name) && args != []
      requires forall i :: 0 <= i < |args| ==> CString(args[i])
      requires forall i :: 0 <= i < |vars| ==> vars[i].name != name
      modifies data, this`vars
      ensures Valid()
      ensures var appended := old(vars) + [Entry(name, Joined(args))];
        && fits == (|Image(appended)| <= data.Length)
        && vars == if fits then appended else old(vars)
      ensures !fits ==> data[..] == old(data[..])
    {
      ghost var e := Entry(name, Joined(args));
      NewImage(vars, name, args);
      var env := FindEnd();
      var len := NeededLength(name, args);
      if len > data.Length - env {
        return false;
      }
      ghost var front := Render(vars);
      env := CopyEntry(name, args, env);
      HereParts(0, front, Cell(e));
      Close(env, vars + [e]);
      fits := true;
    }

    static lemma NewImage(vars: seq<Entry>, name: string, args: seq<string>)
      requires WellFormed(vars) && ValidName(name) && args != []
      requires forall i :: 0 <= i < |args| ==> CString(args[i])
      requires forall i :: 0 <= i < |vars| ==> vars[i].name != name
      ensures var e := Entry(name, Joined(args));
        && WellFormed(vars + [e]) && Render(vars + [e]) == Render(vars) + Cell(e)
        && |Image(vars + [e])| == |Render(vars)| + |name| + JoinedLength(args) + 2
    {
      var e := Entry(name, Joined(args));
      JoinedCString(args);
      AppendRender(vars, e);
      AppendWellFormed(vars, e);
      JoinedLengthIs(args);
    }

    /** Name, '=' and arguments with their NUL; the answer is the index behind it. */
    method CopyEntry(name: string, args: seq<string>, from: nat) returns (env: nat)
      requires CString(name) && args != [] && forall i :: 0 <= i < |args| ==> CString(args[i])
      requires from + |name| + JoinedLength(args) + 1 < data.Length
      modifies data
      ensures env == from + |name| + JoinedLength(args) + 1 && Here(from, Cell(Entry(name, Joined(args))))
      ensures forall j :: 0 <= j < from ==> data[j] == old(data[j])
    {
      env := CopyString(name, from);
      assert Here(from, name);
      env := CopyArgs(args, env);
      StringHere(from + |name|, "=" + Joined(args));
      HereParts(from, name, "=" + Joined(args) + "\0");
      assert Cell(Entry(name, Joined(args))) == name + ("=" + Joined(args) + "\0");
      env := env + 1;
    }

    /** Copy the arguments, '=' in front of the first and ' ' of the others. */
    method CopyArgs(args: seq<string>, from: nat) returns (env: nat)
      requires args != [] && from + JoinedLength(args) < data.Length
      requires forall i :: 0 <= i < |args| ==> CString(args[i])
      modifies data
      ensures env == from + JoinedLength(args) && StringAt(from, "=" + Joined(args))
      ensures forall j :: 0 <= j < from ==> data[j] == old(data[j])
    {
      env := from;
      ghost var copied := "";
      for i := 0 to |args|
        invariant copied == Copied(args[..i]) && |copied| == JoinedLength(args[..i])
        invariant env == from + |copied| < data.Length && Here(from, copied) && (i > 0 ==> StringAt(from, copied))
        invariant forall j :: 0 <= j < from ==> data[j] == old(data[j])
      {
        var separator := if i == 0 then '=' else ' ';
        CopiedStep(args, i);
        env := CopyArg(separator, args[i], from, env, copied);
        copied := copied + [separator] + args[i];
      }
      assert args[..|args|] == args;
    }

    /** One argument behind what has been copied from `from` on. */
    method CopyArg(separator: char, arg: string, from: nat, at: nat, ghost before: string) returns (env: nat)
      requires CString(arg) && at == from + |before| && at + 1 + |arg| < data.Length && Here(from, before)
      modifies data
      ensures env == at + 1 + |arg| && StringAt(from, before + [separator] + arg)
      ensures forall j :: 0 <= j < from ==> data[j] == old(data[j])
    {
      data[at] := separator;
      HereParts(from, before, [separator]);
      env := CopyString(arg, at + 1);
      HereParts(from, before + [separator], arg);
    }

    /** _do_setenv. `value` of an old definition is needed only for the Ethernet
        address default; see Protected. */
    method SetEnv(req: Request) returns (r: Outcome)
      requires Valid() && ValidRequest(req)
      modifies this`crc, this`envId, this`vars, data
      ensures Valid()
      ensures (r, vars) == Set(cfg, data.Length, old(vars), req)
      ensures envId == if r == IllegalName then old(envId) else old(envId) + 1
      ensures r == Done ==> crc == checksum(data[..])
      ensures r != Done ==> crc == old(crc)
      ensures r != Done && vars == old(vars) ==> data[..] == old(data[..])
    {
      if '=' in req.name {
        return IllegalName;
      }
      envId := envId + 1;
      var oldval, env, nxt;
      ghost var k;
      NamePartOfName(req.name);
      oldval, env, nxt, k := FindEntry(req.name);
      LookupNone(vars, req.name);
      if IsConsole(req.name) {
        if req.args == [] {
          return ConsoleNotDeleted;
        }
        if !req.deviceOk {
          return ConsoleRefused;
        }
      }
      if oldval >= 0 {
        LookupAt(vars, k);
        WithoutAt(vars, k);
        var keep := IsKept(req, oldval, k);
        if keep {
          return WriteProtected;
        }
        if req.name == "baudrate" && !req.baudOk {
          return BaudRefused;
        }
        DeleteEntry(env, nxt, k);
      } else {
        WithoutAbsent(vars, req.name);
      }
      if req.args == [] {
        crc := checksum(data[..]);
        return Done;
      }
      WithoutWellFormed(old(vars), req.name);
      var fits := AppendEntry(req.name, req.args);
      if !fits {
        return Overflow;
      }
      crc := checksum(data[..]);
      return Done;
    }

    /** The write-protection test on the value that starts at `oldval`. */
    method IsKept(req: Request, oldval: int, ghost k: nat) returns (keep: bool)
      requires Valid() && k < |vars| && vars[k].name == req.name
      requires oldval == Start(k) + |req.name| + 1
      ensures keep == Protected(cfg, req, vars[k].value)
    {
      if cfg.envOverwrite {
        return false;
      }
      var isDefault := false;
      if cfg.ethaddrOnce.Some? {
        ValueOfEntry(k);
        isDefault := StrEqual(oldval, cfg.ethaddrOnce.value, vars[k].value);
      }
      keep := (req.name == "serial#" && !(cfg.hasUid && req.flag == FORCE_FLAG))
              || (req.name == "ethaddr" && !isDefault);
    }

    /** strcmp of a value in the buffer with a constant string. */
    method StrEqual(at: nat, s: string, ghost value: string) returns (equal: bool)
      requires CString(value) && StringAt(at, value)
      ensures equal == (value == s)
    {
      var j := 0;
      while j < |s| && data[at + j] != '\0' && data[at + j] == s[j]
        invariant j <= |value| && j <= |s|
        invariant forall i :: 0 <= i < j ==> value[i] == s[i]
      {
        j := j + 1;
      }
      assert j < |value| ==> data[at + j] == value[j] != '\0';
      equal := j == |s| && data[at + j] == '\0';
    }

    /** getenv: the index of the value, or -1. */
    method GetEnv(s: string) returns (r: int)
      requires Valid() && CString(s)
      ensures r < 0 <==> Lookup(vars, NamePart(s)) == None
      ensures r >= 0 ==> StringAt(r, Lookup(vars, NamePart(s)).value)
    {
      var env, nxt;
      ghost var k;
      r, env, nxt, k := FindEntry(s);
      LookupNone(vars, NamePart(s));
      if r >= 0 {
        LookupAt(vars, k);
        ValueOfEntry(k);
      }
    }

    /** API_env_enum: step from the variable named by `last` to the next one. */
    method EnumNext(last: Option<string>) returns (next: EnumResult)
      requires Valid() && (last.Some? ==> CString(last.value))
      ensures match NextAfter(vars, last)
        case At(k) => k <= |vars| && next == At(Start(k))
        case other => next == other
    {
      if last.None? {
        return At(0);
      }
      ghost var name := NamePart(last.value);
      IndexOfFirst(vars, name);
      StartOf(0);
      next := Unchanged;
      var i := 0;
      ghost var k := 0;
      while data[i] != '\0'
        invariant k <= |vars| && i == Start(k) < data.Length
        invariant data[i] == '\0' <==> k == |vars|
        invariant forall j :: 0 <= j < k ==> vars[j].name != name
        decreases |vars| - k
      {
        var n := SkipString(i, k);
        CharsOfEntry(k);
        var r := EnvMatch(last.value, i, vars[k].name);
        i := n + 1;
        StartOf(k + 1);
        if r >= 0 {
          return if data[i] == '\0' then NoMore else At(i);
        }
        k := k + 1;
      }
    }

    /** ub_env_enum reads the name of the entry it was given out of the buffer. */
    method ReadName(at: nat, ghost name0: string) returns (name: string)
      requires NameAt(at, name0)
      ensures name == name0
    {
      assert forall j :: 0 <= j < |name0| ==> name0[j] != '=' && name0[j] != '\0';
      name := "";
      while data[at + |name|] != '=' && data[at + |name|] != '\0'
        invariant |name| <= |name0| && name == name0[..|name|]
        invariant |name| < |name0| ==> data[at + |name|] == name0[|name|]
        decreases |name0| - |name|
      {
        name := name + [data[at + |name|]];
      }
    }

    /** The client loop `while ((env = ub_env_enum(env)) != NULL)`: it sees every
        variable once, in buffer order. On an empty list it would not end; see
        WalkEnds. */
    method EnumerateAll() returns (names: seq<string>)
      requires Valid() && vars != []
      ensures |names| == |vars| && forall k :: 0 <= k < |vars| ==> names[k] == vars[k].name
    {
      names := [];
      var next := EnumNext(None);
      while next.At?
        invariant |names| <= |vars| && forall k :: 0 <= k < |names| ==> names[k] == vars[k].name
        invariant next == if |names| < |vars| then At(Start(|names|)) else NoMore
        decreases |vars| - |names|
      {
        ghost var k := |names|;
        CharsOfEntry(k);
        var name := ReadName(next.index, vars[k].name);
        names := names + [name];
        assert ValidEntry(vars[k]);
        EnumStep(vars, k, name);
        next := EnumNext(Some(name));
      }
    }
  }
}
