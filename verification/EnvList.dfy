/**
 The environment as its users see it: an ordered list of variables with
 distinct names. This module says what each operation on the environment means
 on that list; EnvStore shows that the byte-level code does exactly this.
 */
module EnvList {

  import opened Strings
  import opened Wrappers

  datatype Entry = Entry(name: string, value: string)

  // ---------------------------------------------------------------- layout

  predicate CString(s: string) {
    '\0' !in s
  }

  predicate ValidName(s: string) {
    CString(s) && '=' !in s
  }

  predicate ValidEntry(e: Entry) {
    ValidName(e.name) && CString(e.value)
  }

  predicate DistinctNames(vars: seq<Entry>) {
    forall i, j :: 0 <= i < j < |vars| ==> vars[i].name != vars[j].name
  }

  predicate WellFormed(vars: seq<Entry>) {
    (forall i :: 0 <= i < |vars| ==> ValidEntry(vars[i])) && DistinctNames(vars)
  }

  function Text(e: Entry): string {
    e.name + "=" + e.value
  }

  /** One variable as the buffer holds it. */
  function Cell(e: Entry): string {
    Text(e) + "\0"
  }

  /** The variables as `name=value` strings, each closed by its own NUL. */
  function Render(vars: seq<Entry>): string {
    if vars == [] then "" else Cell(vars[0]) + Render(vars[1..])
  }

  /** What the front of the buffer holds. An empty list still needs two NULs,
      because the code recognises the end by a double NUL. */
  function Image(vars: seq<Entry>): string {
    if vars == [] then "\0\0" else Render(vars) + "\0"
  }

  lemma {:induction false} RenderConcat(a: seq<Entry>, b: seq<Entry>)
    ensures Render(a + b) == Render(a) + Render(b)
  {
    if a == [] {
      assert a + b == b;
    } else {
      RenderConcat(a[1..], b);
      assert (a + b)[1..] == a[1..] + b;
      assert (a + b)[0] == a[0];
      SeqAssoc(Cell(a[0]), Render(a[1..]), Render(b));
    }
  }

  lemma SeqAssoc(a: string, b: string, c: string)
    ensures (a + b) + c == a + (b + c)
  {
  }

  /** Where entry k stands inside the rendered list. */
  lemma RenderSplit(vars: seq<Entry>, k: nat)
    requires k < |vars|
    ensures Render(vars) == Render(vars[..k]) + (Cell(vars[k]) + Render(vars[k + 1..]))
    ensures |Render(vars[..k + 1])| == |Render(vars[..k])| + |Text(vars[k])| + 1
  {
    assert vars == vars[..k] + vars[k..];
    RenderConcat(vars[..k], vars[k..]);
    assert vars[k..][1..] == vars[k + 1..];
    assert vars[..k + 1] == vars[..k] + [vars[k]];
    RenderConcat(vars[..k], [vars[k]]);
  }

  predicate Terminated(s: string) {
    s != "" ==> s[0] != '\0' && s[|s| - 1] == '\0'
  }

  predicate NoPair(s: string) {
    forall j :: 0 <= j < |s| - 1 ==> s[j] != '\0' || s[j + 1] != '\0'
  }

  /** Two NULs in a row occur nowhere inside the rendered list, so the double
      NUL that ends the buffer cannot be found too early. */
  lemma {:induction false} NoDoubleNul(vars: seq<Entry>)
    requires forall i :: 0 <= i < |vars| ==> ValidEntry(vars[i])
    ensures Terminated(Render(vars))
    ensures NoPair(Render(vars))
  {
    if vars != [] {
      var head, rest := Text(vars[0]), Render(vars[1..]);
      NoDoubleNul(vars[1..]);
      assert ValidEntry(vars[0]);
      assert CString(head);
      assert Render(vars) == (head + "\0") + rest;
      forall j | 0 <= j < |Render(vars)| - 1
        ensures Render(vars)[j] != '\0' || Render(vars)[j + 1] != '\0'
      {
        if j < |head| {
          assert Render(vars)[j] == head[j];
        } else if j == |head| {
          assert Render(vars)[j + 1] == rest[0];
        } else {
          assert Render(vars)[j] == rest[j - |head| - 1] && Render(vars)[j + 1] == rest[j - |head|];
        }
      }
    }
  }

  // ------------------------------------------------------------ operations

  function Lookup(vars: seq<Entry>, name: string): Option<string> {
    if vars == [] then None
    else if vars[0].name == name then Some(vars[0].value)
    else Lookup(vars[1..], name)
  }

  function Without(vars: seq<Entry>, name: string): seq<Entry> {
    if vars == [] then []
    else if vars[0].name == name then Without(vars[1..], name)
    else [vars[0]] + Without(vars[1..], name)
  }

  /** CONFIG_ENV_OVERWRITE, CONFIG_HAS_UID and the CONFIG_ETHADDR default that
      CONFIG_OVERWRITE_ETHADDR_ONCE allows to be replaced. */
  datatype Config = Config(envOverwrite: bool, hasUid: bool, ethaddrOnce: Option<string>)

  /** One call of _do_setenv. `deviceOk` and `baudOk` are the answers of the
      console switch and of the baud-rate table. */
  datatype Request = Request(flag: int, name: string, args: seq<string>, deviceOk: bool, baudOk: bool)

  datatype Outcome = Done | IllegalName | ConsoleNotDeleted | ConsoleRefused | WriteProtected | BaudRefused | Overflow

  const FORCE_FLAG := 0xdeaf4add

  predicate IsConsole(name: string) {
    name == "stdin" || name == "stdout" || name == "stderr"
  }

  predicate Protected(cfg: Config, req: Request, value: string) {
    && !cfg.envOverwrite
    && (|| (req.name == "serial#" && !(cfg.hasUid && req.flag == FORCE_FLAG))
        || (req.name == "ethaddr" && cfg.ethaddrOnce != Some(value)))
  }

  /** The request is refused before the buffer is touched. */
  function Refusal(cfg: Config, vars: seq<Entry>, req: Request): Option<Outcome> {
    var current := Lookup(vars, req.name);
    if '=' in req.name then Some(IllegalName)
    else if IsConsole(req.name) && req.args == [] then Some(ConsoleNotDeleted)
    else if IsConsole(req.name) && !req.deviceOk then Some(ConsoleRefused)
    else if current.Some? && Protected(cfg, req, current.value) then Some(WriteProtected)
    else if current.Some? && req.name == "baudrate" && !req.baudOk then Some(BaudRefused)
    else None
  }

  /** "Remove the name, then append the new definition if it fits." */
  function Set(cfg: Config, size: nat, vars: seq<Entry>, req: Request): (Outcome, seq<Entry>) {
    var refusal := Refusal(cfg, vars, req);
    if refusal.Some? then (refusal.value, vars)
    else
      var removed := Without(vars, req.name);
      var appended := removed + [Entry(req.name, Joined(req.args))];
      if req.args == [] then (Done, removed)
      else if |Image(appended)| <= size then (Done, appended)
      else (Overflow, removed)
  }

  function Run(cfg: Config, size: nat, vars: seq<Entry>, reqs: seq<Request>): seq<Entry>
    decreases |reqs|
  {
    if reqs == [] then vars else Run(cfg, size, Set(cfg, size, vars, reqs[0]).1, reqs[1..])
  }

  predicate ValidRequest(req: Request) {
    CString(req.name) && forall i :: 0 <= i < |req.args| ==> CString(req.args[i])
  }

  // ------------------------------------------------------------ properties

  lemma {:induction false} LookupAt(vars: seq<Entry>, k: nat)
    requires DistinctNames(vars) && k < |vars|
    ensures Lookup(vars, vars[k].name) == Some(vars[k].value)
  {
    if k > 0 {
      assert vars[0].name != vars[k].name;
      LookupAt(vars[1..], k - 1);
    }
  }

  lemma {:induction false} LookupNone(vars: seq<Entry>, name: string)
    ensures Lookup(vars, name) == None <==> forall i :: 0 <= i < |vars| ==> vars[i].name != name
  {
    if vars != [] {
      LookupNone(vars[1..], name);
      if Lookup(vars, name) == None {
        forall i | 0 <= i < |vars|
          ensures vars[i].name != name
        {
          assert i > 0 ==> vars[i] == vars[1..][i - 1];
        }
      }
    }
  }

  lemma {:induction false} WithoutAbsent(vars: seq<Entry>, name: string)
    requires forall i :: 0 <= i < |vars| ==> vars[i].name != name
    ensures Without(vars, name) == vars
  {
    if vars != [] {
      WithoutAbsent(vars[1..], name);
    }
  }

  /** With distinct names, removing a name cuts out exactly one entry. */
  lemma {:induction false} WithoutAt(vars: seq<Entry>, k: nat)
    requires DistinctNames(vars) && k < |vars|
    ensures Without(vars, vars[k].name) == vars[..k] + vars[k + 1..]
  {
    if k == 0 {
      WithoutAbsent(vars[1..], vars[0].name);
    } else {
      assert vars[0].name != vars[k].name;
      WithoutAt(vars[1..], k - 1);
      assert vars[1..][..k - 1] == vars[1..k];
      assert vars[1..][k..] == vars[k + 1..];
      assert vars[..k] == [vars[0]] + vars[1..k];
    }
  }

  /** Removal takes away the name and touches nothing else. */
  lemma {:induction false} WithoutLookup(vars: seq<Entry>, name: string, other: string)
    ensures Lookup(Without(vars, name), other) == if other == name then None else Lookup(vars, other)
  {
    if vars != [] {
      WithoutLookup(vars[1..], name, other);
    }
  }

  lemma {:induction false} LookupConcat(a: seq<Entry>, b: seq<Entry>, name: string)
    ensures Lookup(a + b, name) == if Lookup(a, name).Some? then Lookup(a, name) else Lookup(b, name)
  {
    if a == [] {
      assert a + b == b;
    } else {
      LookupConcat(a[1..], b, name);
      assert (a + b)[1..] == a[1..] + b;
    }
  }

  lemma {:induction false} JoinedCString(args: seq<string>)
    requires forall i :: 0 <= i < |args| ==> CString(args[i])
    ensures CString(Joined(args))
  {
    if |args| > 1 {
      JoinedCString(args[..|args| - 1]);
    }
  }

  lemma AppendRender(vars: seq<Entry>, e: Entry)
    ensures Render(vars + [e]) == Render(vars) + Cell(e)
  {
    RenderConcat(vars, [e]);
    assert Render([e]) == Cell(e) + "";
  }

  lemma AppendWellFormed(vars: seq<Entry>, e: Entry)
    requires WellFormed(vars) && ValidEntry(e)
    requires forall i :: 0 <= i < |vars| ==> vars[i].name != e.name
    ensures WellFormed(vars + [e])
  {
  }

  lemma WithoutWellFormed(vars: seq<Entry>, name: string)
    requires WellFormed(vars)
    ensures WellFormed(Without(vars, name))
    ensures forall i :: 0 <= i < |Without(vars, name)| ==> Without(vars, name)[i].name != name
  {
    if k: nat :| k < |vars| && vars[k].name == name {
      WithoutAt(vars, k);
    } else {
      WithoutAbsent(vars, name);
    }
  }

  /** Every request keeps the names distinct and the entries well formed. */
  lemma SetWellFormed(cfg: Config, size: nat, vars: seq<Entry>, req: Request)
    requires WellFormed(vars) && ValidRequest(req)
    ensures WellFormed(Set(cfg, size, vars, req).1)
  {
    WithoutWellFormed(vars, req.name);
    JoinedCString(req.args);
  }

  /** What a request means for every name, read back by getenv. */
  lemma SetThenLookup(cfg: Config, size: nat, vars: seq<Entry>, req: Request, name: string)
    ensures var (r, after) := Set(cfg, size, vars, req);
      Lookup(after, name) ==
        if r == Done && name == req.name then (if req.args == [] then None else Some(Joined(req.args)))
        else if r == Overflow && name == req.name then None
        else Lookup(vars, name)
  {
    var removed := Without(vars, req.name);
    WithoutLookup(vars, req.name, name);
    LookupConcat(removed, [Entry(req.name, Joined(req.args))], name);
  }

  /** The other variables stay, in their order: both lists are the same once
      the name of the request is taken out. */
  lemma {:induction false} WithoutTwice(vars: seq<Entry>, name: string)
    ensures Without(Without(vars, name), name) == Without(vars, name)
  {
    if vars != [] {
      WithoutTwice(vars[1..], name);
    }
  }

  lemma {:induction false} WithoutConcat(a: seq<Entry>, b: seq<Entry>, name: string)
    ensures Without(a + b, name) == Without(a, name) + Without(b, name)
  {
    if a == [] {
      assert a + b == b;
    } else {
      WithoutConcat(a[1..], b, name);
      assert (a + b)[1..] == a[1..] + b;
    }
  }

  lemma SetKeepsOthersInOrder(cfg: Config, size: nat, vars: seq<Entry>, req: Request)
    ensures Without(Set(cfg, size, vars, req).1, req.name) == Without(vars, req.name)
  {
    WithoutTwice(vars, req.name);
    WithoutConcat(Without(vars, req.name), [Entry(req.name, Joined(req.args))], req.name);
  }

  /** A request that is not refused fails exactly when the new list and its
      double NUL do not fit; what remains always fits. */
  lemma SetFits(cfg: Config, size: nat, vars: seq<Entry>, req: Request)
    requires |Image(vars)| <= size && WellFormed(vars)
    requires Refusal(cfg, vars, req) == None
    ensures Set(cfg, size, vars, req).0 == Overflow <==>
            req.args != [] && |Render(Without(vars, req.name))| + |req.name| + |Joined(req.args)| + 3 > size
    ensures |Image(Set(cfg, size, vars, req).1)| <= size
  {
    AppendRender(Without(vars, req.name), Entry(req.name, Joined(req.args)));
    WithoutShrinks(vars, req.name);
  }

  lemma WithoutShrinks(vars: seq<Entry>, name: string)
    requires WellFormed(vars)
    ensures Without(vars, name) != [] ==> vars != [] && |Render(Without(vars, name))| <= |Render(vars)|
    ensures |Image(Without(vars, name))| <= |Image(vars)|
  {
    if k: nat :| k < |vars| && vars[k].name == name {
      WithoutAt(vars, k);
      RenderSplit(vars, k);
      RenderConcat(vars[..k], vars[k + 1..]);
    } else {
      WithoutAbsent(vars, name);
    }
  }

  /** Deleting right after a successful set is the same as deleting at once. */
  lemma DeleteUndoesSet(cfg: Config, size: nat, vars: seq<Entry>, req: Request)
    requires Set(cfg, size, vars, req).0 == Done
    requires !IsConsole(req.name) && req.name != "serial#" && req.name != "ethaddr" && req.name != "baudrate"
    ensures Set(cfg, size, Set(cfg, size, vars, req).1, req.(args := [])) == (Done, Without(vars, req.name))
  {
    SetKeepsOthersInOrder(cfg, size, vars, req);
  }

  predicate WriteOnce(cfg: Config, name: string, value: string) {
    && !cfg.envOverwrite
    && (name == "serial#" || (name == "ethaddr" && cfg.ethaddrOnce != Some(value)))
  }

  predicate Unforced(cfg: Config, reqs: seq<Request>) {
    cfg.hasUid ==> forall i :: 0 <= i < |reqs| ==> reqs[i].flag != FORCE_FLAG
  }

  /** Over any run of requests without the force flag, the serial number and the
      Ethernet address keep the value they have, whatever else is set, deleted
      or overflows. */
  lemma {:induction false} WriteOnceSurvivesRuns(
      cfg: Config, size: nat, vars: seq<Entry>, reqs: seq<Request>, name: string, value: string)
    requires Lookup(vars, name) == Some(value) && WriteOnce(cfg, name, value)
    requires Unforced(cfg, reqs)
    ensures Lookup(Run(cfg, size, vars, reqs), name) == Some(value)
    decreases |reqs|
  {
    if reqs != [] {
      SetThenLookup(cfg, size, vars, reqs[0], name);
      WriteOnceSurvivesRuns(cfg, size, Set(cfg, size, vars, reqs[0]).1, reqs[1..], name, value);
    }
  }

  predicate IsSpecial(name: string) {
    IsConsole(name) || name == "serial#" || name == "ethaddr" || name == "baudrate"
  }

  /** The length of the new list with its double NUL. */
  function NewLength(vars: seq<Entry>, req: Request): nat {
    |Render(Without(vars, req.name))| + |req.name| + |Joined(req.args)| + 3
  }

  /** The request was carried out as far as the buffer allows: the old definition is gone, and
      the new one stands at the end of the list exactly when it fits. */
  predicate CarriedOut(size: nat, vars: seq<Entry>, req: Request, r: Outcome, after: seq<Entry>) {
    var others := Without(vars, req.name);
    if req.args == [] then r == Done && after == others
    else if NewLength(vars, req) <= size then r == Done && after == others + [Entry(req.name, Joined(req.args))]
    else r == Overflow && after == others
  }

  lemma SetCarriesOut(cfg: Config, size: nat, vars: seq<Entry>, req: Request)
    requires |Image(vars)| <= size && WellFormed(vars)
    ensures var (r, after) := Set(cfg, size, vars, req);
      if r == Done || r == Overflow then CarriedOut(size, vars, req, r, after) else after == vars
  {
    AppendRender(Without(vars, req.name), Entry(req.name, Joined(req.args)));
  }

  /** An ordinary variable can always be set, replaced and deleted, whatever the configuration:
      getenv then reads the new value exactly when the list with it fits. */
  lemma OrdinaryIsSet(cfg: Config, size: nat, vars: seq<Entry>, req: Request)
    requires |Image(vars)| <= size && WellFormed(vars)
    requires '=' !in req.name && !IsSpecial(req.name)
    ensures var (r, after) := Set(cfg, size, vars, req);
      && CarriedOut(size, vars, req, r, after)
      && Lookup(after, req.name) ==
           if req.args != [] && NewLength(vars, req) <= size then Some(Joined(req.args)) else None
  {
    SetCarriesOut(cfg, size, vars, req);
    SetThenLookup(cfg, size, vars, req, req.name);
  }

  /** The other names: what has to hold for the request to be carried out, and the answer
      otherwise. Nothing changes then. */
  lemma SpecialIsSet(cfg: Config, size: nat, vars: seq<Entry>, req: Request)
    requires |Image(vars)| <= size && WellFormed(vars)
    requires '=' in req.name || IsSpecial(req.name)
    ensures var (r, after) := Set(cfg, size, vars, req);
      var current := Lookup(vars, req.name);
      if '=' in req.name then (r, after) == (IllegalName, vars)
      else if IsConsole(req.name) then
        if req.args == [] then (r, after) == (ConsoleNotDeleted, vars)
        else if !req.deviceOk then (r, after) == (ConsoleRefused, vars)
        else CarriedOut(size, vars, req, r, after)
      else if req.name == "baudrate" then
        if current.Some? && !req.baudOk then (r, after) == (BaudRefused, vars)
        else CarriedOut(size, vars, req, r, after)
      else
        if current.Some? && WriteOnce(cfg, req.name, current.value) && !Forced(cfg, req)
        then (r, after) == (WriteProtected, vars)
        else CarriedOut(size, vars, req, r, after)
  {
    SetCarriesOut(cfg, size, vars, req);
  }

  predicate Forced(cfg: Config, req: Request) {
    req.name == "serial#" && cfg.hasUid && req.flag == FORCE_FLAG
  }

  /** The force flag, the overwrite option and the factory Ethernet address are
      the only ways around the protection: whenever one of them applies, a request
      replaces or deletes the variable; otherwise it stays. */
  lemma WriteOnceIsExact(cfg: Config, size: nat, vars: seq<Entry>, req: Request, value: string)
    requires |Image(vars)| <= size && WellFormed(vars)
    requires req.name == "serial#" || req.name == "ethaddr"
    requires Lookup(vars, req.name) == Some(value)
    ensures var (r, after) := Set(cfg, size, vars, req);
      CarriedOut(size, vars, req, r, after) <==> !WriteOnce(cfg, req.name, value) || Forced(cfg, req)
  {
    SpecialIsSet(cfg, size, vars, req);
  }

  lemma WriteOnceDeletion(cfg: Config, size: nat, vars: seq<Entry>, name: string, value: string, flag: int)
    requires name == "serial#" || name == "ethaddr"
    requires Lookup(vars, name) == Some(value)
    ensures Lookup(Set(cfg, size, vars, Request(flag, name, [], true, true)).1, name) == None <==>
            !WriteOnce(cfg, name, value) || (name == "serial#" && cfg.hasUid && flag == FORCE_FLAG)
  {
    SetThenLookup(cfg, size, vars, Request(flag, name, [], true, true), name);
  }

  // ------------------------------------------------------------ the layout read back

  /** What a reader makes of a buffer who knows only that the strings `name=value` stand one
      behind the other, each closed by a NUL, and that an empty one ends them. */
  function ReadImage(image: string): seq<Entry>
    decreases |image|
  {
    var text := Before(image, '\0');
    if text == "" || |text| >= |image| then []
    else
      var name := Before(text, '=');
      [Entry(name, if |name| < |text| then text[|name| + 1..] else "")] + ReadImage(image[|text| + 1..])
  }

  lemma {:induction false} RenderReadsBack(vars: seq<Entry>, rest: string)
    requires forall i :: 0 <= i < |vars| ==> ValidEntry(vars[i])
    requires rest != "" && rest[0] == '\0'
    ensures ReadImage(Render(vars) + rest) == vars
  {
    if vars == [] {
      assert Render(vars) + rest == rest;
    } else {
      var text, tail := Text(vars[0]), Render(vars[1..]) + rest;
      assert ValidEntry(vars[0]);
      assert Render(vars) + rest == text + "\0" + tail;
      BeforeMark(text, '\0', tail);
      BeforeMark(vars[0].name, '=', vars[0].value);
      assert text[|vars[0].name| + 1..] == vars[0].value;
      assert (text + "\0" + tail)[|text| + 1..] == tail;
      RenderReadsBack(vars[1..], rest);
    }
  }

  /** The image holds the variables and nothing else, whatever stands behind it. */
  lemma ImageReadsBack(vars: seq<Entry>, rest: string)
    requires forall i :: 0 <= i < |vars| ==> ValidEntry(vars[i])
    ensures ReadImage(Image(vars) + rest) == vars
  {
    var end := if vars == [] then "\0\0" + rest else "\0" + rest;
    assert Image(vars) + rest == Render(vars) + end;
    RenderReadsBack(vars, end);
  }

  // ------------------------------------------------------------ enumeration

  /** The part of `name` or `name=value` that names the variable. */
  function NamePart(s: string): string {
    if s == "" || s[0] == '=' then "" else [s[0]] + NamePart(s[1..])
  }

  lemma {:induction false} NamePartOfName(s: string)
    requires '=' !in s
    ensures NamePart(s) == s
  {
    if s != "" {
      NamePartOfName(s[1..]);
    }
  }

  lemma {:induction false} NamePartOfText(name: string, rest: string)
    requires '=' !in name
    ensures NamePart(name + "=" + rest) == name
  {
    if name != "" {
      NamePartOfText(name[1..], rest);
      assert (name + "=" + rest)[1..] == name[1..] + "=" + rest;
    }
  }

  lemma {:induction false} NamePartPrefix(s: string, k: nat)
    requires k <= |s| && '=' !in s[..k]
    ensures NamePart(s) == s[..k] + NamePart(s[k..])
  {
    if k > 0 {
      assert s[0] == s[..k][0];
      assert s[1..][..k - 1] == s[..k][1..];
      assert s[1..][k - 1..] == s[k..];
      NamePartPrefix(s[1..], k - 1);
    }
  }

  function IndexOf(vars: seq<Entry>, name: string): nat {
    if vars == [] || vars[0].name == name then 0 else 1 + IndexOf(vars[1..], name)
  }

  /** What API_env_enum leaves in *next: the start of a string of the buffer,
      NULL, or the argument itself when no variable has that name. */
  datatype EnumResult = At(index: nat) | NoMore | Unchanged

  function NextAfter(vars: seq<Entry>, last: Option<string>): EnumResult {
    if last.None? then At(0)
    else
      var k := IndexOf(vars, NamePart(last.value));
      if k == |vars| then Unchanged else if k + 1 == |vars| then NoMore else At(k + 1)
  }

  lemma {:induction false} IndexOfFirst(vars: seq<Entry>, name: string)
    ensures var k := IndexOf(vars, name);
      && k <= |vars|
      && (k < |vars| ==> vars[k].name == name)
      && forall i :: 0 <= i < k ==> vars[i].name != name
  {
    if vars != [] && vars[0].name != name {
      IndexOfFirst(vars[1..], name);
      assert forall i :: 1 <= i <= IndexOf(vars[1..], name) && i < |vars| ==> vars[i] == vars[1..][i - 1];
    }
  }

  /** Handing entry k back, as a bare name or as the whole `name=value` string,
      leads to entry k + 1, and from the last entry to NULL: starting from NULL
      every variable is visited exactly once, in order. */
  lemma EnumStep(vars: seq<Entry>, k: nat, last: string)
    requires WellFormed(vars) && k < |vars|
    requires last == vars[k].name || last == Text(vars[k])
    ensures NextAfter(vars, Some(last)) == if k + 1 < |vars| then At(k + 1) else NoMore
  {
    assert ValidEntry(vars[k]);
    NamePartOfName(vars[k].name);
    NamePartOfText(vars[k].name, vars[k].value);
    IndexOfFirst(vars, vars[k].name);
    assert forall i :: 0 <= i < k ==> vars[i].name != vars[k].name;
  }

  /** The n-th answer when every answer is handed back; at the end mark of an
      empty buffer the string handed back is empty. */
  function Walk(vars: seq<Entry>, n: nat): EnumResult {
    if n == 0 then NextAfter(vars, None)
    else match Walk(vars, n - 1)
      case At(k) => NextAfter(vars, Some(if k < |vars| then vars[k].name else ""))
      case other => other
  }

  lemma {:induction false} WalkVisits(vars: seq<Entry>, n: nat)
    requires WellFormed(vars) && vars != []
    ensures Walk(vars, n) == if n < |vars| then At(n) else NoMore
  {
    if n > 0 {
      WalkVisits(vars, n - 1);
      if n <= |vars| {
        EnumStep(vars, n - 1, vars[n - 1].name);
      }
    }
  }

  lemma {:induction false} WalkEmpty(n: nat)
    ensures Walk([], n) == if n == 0 then At(0) else Unchanged
  {
    if n > 0 {
      WalkEmpty(n - 1);
    }
  }

  /** The enumeration comes to NULL exactly on environments that are not empty. */
  lemma WalkEnds(vars: seq<Entry>)
    requires WellFormed(vars)
    ensures (exists n: nat :: Walk(vars, n) == NoMore) <==> vars != []
  {
    if vars == [] {
      forall n: nat
        ensures Walk(vars, n) != NoMore
      {
        WalkEmpty(n);
      }
    } else {
      WalkVisits(vars, |vars|);
    }
  }
}
