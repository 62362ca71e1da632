/**
 When printing and parsing a partition table gives the table back: partitions with
 equal offsets come out of the parser in reverse order, so the exact condition is
 about them.
 */
module MtdTies {
  import opened Machine
  import opened MtdOrder
  import opened MtdText
  import opened Wrappers

  // ------------------------------------------------------- groups of equals

  /** The first partition of the group that holds number k: those around it with the
      same offset. */
  function First(parts: seq<Part>, k: nat): (f: nat)
    requires k < |parts|
    ensures f <= k && forall j :: f <= j <= k ==> parts[j].offset == parts[k].offset
  {
    if k == 0 || parts[k - 1].offset != parts[k].offset then k else First(parts, k - 1)
  }

  /** The last one of that group. */
  function Last(parts: seq<Part>, k: nat): (l: nat)
    requires k < |parts|
    ensures k <= l < |parts| && forall j :: k <= j <= l ==> parts[j].offset == parts[k].offset
    decreases |parts| - k
  {
    if k == |parts| - 1 || parts[k + 1].offset != parts[k].offset then k else Last(parts, k + 1)
  }

  /** The partition that number k changes places with when its group is reversed. */
  function Mirror(parts: seq<Part>, k: nat): (m: nat)
    requires k < |parts|
    ensures m < |parts| && parts[m].offset == parts[k].offset
  {
    First(parts, k) + (Last(parts, k) - k)
  }

  function Mirrored(parts: seq<Part>): (r: seq<Part>)
    ensures |r| == |parts| && forall k :: 0 <= k < |r| ==> r[k] == parts[Mirror(parts, k)]
  {
    seq(|parts|, k requires 0 <= k < |parts| => parts[Mirror(parts, k)])
  }

  /** Ascending offsets, and at most one partition at offset 0. */
  ghost predicate Ascending(parts: seq<Part>) {
    forall i, j :: 0 <= i < j < |parts| ==>
      parts[i].offset < parts[j].offset || parts[i].offset == parts[j].offset != 0
  }

  // --------------------------------------------------------- what sorting does

  /** The list with one more partition at the end. */
  ghost predicate Extends(parts: seq<Part>, q: seq<Part>) {
    |parts| == |q| + 1 && forall j :: 0 <= j < |q| ==> parts[j] == q[j]
  }

  lemma {:induction false} FirstOfPrefix(parts: seq<Part>, q: seq<Part>, k: nat)
    requires Extends(parts, q) && k < |q|
    ensures First(parts, k) == First(q, k)
  {
    if k > 0 && q[k - 1].offset == q[k].offset {
      FirstOfPrefix(parts, q, k - 1);
    }
  }

  /** The last partition joins the group in front of it or begins one. */
  lemma {:induction false} LastOfPrefix(parts: seq<Part>, q: seq<Part>, k: nat)
    requires Extends(parts, q) && k < |q|
    ensures Last(parts, k) == if Last(q, k) == |q| - 1 && q[k].offset == parts[|q|].offset then |q| else Last(q, k)
    decreases |q| - k
  {
    if k < |q| - 1 && q[k + 1].offset == q[k].offset {
      LastOfPrefix(parts, q, k + 1);
    }
  }

  /** A group is known by its ends. */
  ghost predicate Group(parts: seq<Part>, f: nat, l: nat) {
    && f <= l < |parts|
    && (forall j :: f <= j <= l ==> parts[j].offset == parts[f].offset)
    && (f > 0 ==> parts[f - 1].offset != parts[f].offset)
    && (l + 1 < |parts| ==> parts[l + 1].offset != parts[l].offset)
  }

  lemma {:induction false} GroupFirst(parts: seq<Part>, f: nat, l: nat, k: nat)
    requires Group(parts, f, l) && f <= k <= l
    ensures First(parts, k) == f
  {
    if k > f {
      assert parts[k - 1].offset == parts[f].offset;
      GroupFirst(parts, f, l, k - 1);
    }
  }

  lemma {:induction false} GroupLast(parts: seq<Part>, f: nat, l: nat, k: nat)
    requires Group(parts, f, l) && f <= k <= l
    ensures Last(parts, k) == l
    decreases l - k
  {
    if k < l {
      assert parts[k + 1].offset == parts[f].offset;
      GroupLast(parts, f, l, k + 1);
    }
  }

  lemma {:induction false} FirstIsEdge(parts: seq<Part>, k: nat)
    requires k < |parts|
    ensures First(parts, k) > 0 ==> parts[First(parts, k) - 1].offset != parts[k].offset
  {
    if k > 0 && parts[k - 1].offset == parts[k].offset {
      FirstIsEdge(parts, k - 1);
    }
  }

  /** In front of the last group all offsets are lower. */
  lemma BelowLastGroup(parts: seq<Part>, k: nat)
    requires Ascending(parts) && parts != [] && k < First(parts, |parts| - 1)
    ensures parts[k].offset < parts[|parts| - 1].offset
  {
    var m := First(parts, |parts| - 1);
    FirstIsEdge(parts, |parts| - 1);
    assert parts[m - 1].offset < parts[m].offset;
    assert k < m - 1 ==> parts[k].offset <= parts[m - 1].offset;
  }

  lemma MirrorBelow(parts: seq<Part>, q: seq<Part>, k: nat)
    requires Extends(parts, q) && Ascending(parts) && k < First(parts, |q|)
    ensures k < |q| && Mirror(parts, k) == Mirror(q, k)
  {
    BelowLastGroup(parts, k);
    FirstOfPrefix(parts, q, k);
    LastOfPrefix(parts, q, k);
  }

  lemma MirrorInGroup(parts: seq<Part>, q: seq<Part>, m: nat, k: nat)
    requires Extends(parts, q) && m == First(parts, |q|) && m <= k <= |q|
    ensures k == m ==> Mirror(parts, k) == |q|
    ensures k > m ==> Mirror(parts, k) == Mirror(q, k - 1)
  {
    FirstIsEdge(parts, |q|);
    GroupFirst(parts, m, |q|, k);
    GroupLast(parts, m, |q|, k);
    if k > m {
      assert Group(q, m, |q| - 1);
      GroupFirst(q, m, |q| - 1, k - 1);
      GroupLast(q, m, |q| - 1, k - 1);
    }
  }

  /** The mirror image of a list with one more partition at the end: that one goes to
      the front of its group. */
  lemma MirroredStep(parts: seq<Part>, q: seq<Part>)
    requires Extends(parts, q) && Ascending(parts)
    ensures Mirrored(parts) == Inserted(Mirrored(q), First(parts, |q|), parts[|q|])
  {
    var m := First(parts, |q|);
    forall k | 0 <= k <= |q|
      ensures Mirrored(parts)[k] == Inserted(Mirrored(q), m, parts[|q|])[k]
    {
      if k < m {
        MirrorBelow(parts, q, k);
      } else {
        MirrorInGroup(parts, q, m, k);
      }
    }
  }

  /** Sorting an ascending list in reverses every group of equal offsets. */
  lemma {:induction false} SortingMirrors(parts: seq<Part>)
    requires Ascending(parts)
    ensures SortAll(parts) == Some(Mirrored(parts))
  {
    if parts != [] {
      var q := parts[..|parts| - 1];
      SortingMirrors(q);
      MirroredStep(parts, q);
      LastSortedIn(parts, q);
    }
  }

  lemma LastSortedIn(parts: seq<Part>, q: seq<Part>)
    requires Extends(parts, q) && Ascending(parts)
    ensures SortAdd(Mirrored(q), parts[|q|]) == Some(Inserted(Mirrored(q), First(parts, |q|), parts[|q|]))
  {
    var p, m := parts[|q|], First(parts, |q|);
    forall j | 0 <= j < m
      ensures Mirrored(q)[j].offset < p.offset
    {
      BelowLastGroup(parts, j);
      assert q[j].offset == parts[j].offset;
    }
    if m < |q| {
      assert q[m].offset == parts[m].offset == p.offset;
    }
    if q != [] {
      assert Mirrored(q)[0].offset == parts[0].offset;
    }
    SortAddAt(Mirrored(q), p, m);
  }

  // ------------------------------------------------ what comes out is sorted

  function PlaceFor(parts: seq<Part>, offset: u32, k: nat): (place: nat)
    requires k <= |parts|
    ensures k <= place <= |parts| && forall j :: k <= j < place ==> parts[j].offset < offset
    ensures place < |parts| ==> offset <= parts[place].offset
    decreases |parts| - k
  {
    if k == |parts| || offset <= parts[k].offset then k else PlaceFor(parts, offset, k + 1)
  }

  lemma SortAddAscends(parts: seq<Part>, p: Part)
    requires Ascending(parts)
    ensures SortAdd(parts, p).Some? ==> Ascending(SortAdd(parts, p).value)
  {
    if parts == [] || !(p.offset == parts[0].offset == 0) {
      var k := PlaceFor(parts, p.offset, 0);
      SortAddAt(parts, p, k);
      InsertedAscends(parts, p, k);
    }
  }

  lemma InsertedAscends(parts: seq<Part>, p: Part, k: nat)
    requires Ascending(parts) && k <= |parts| && forall j :: 0 <= j < k ==> parts[j].offset < p.offset
    requires k < |parts| ==> p.offset <= parts[k].offset
    requires parts == [] || !(p.offset == parts[0].offset == 0)
    ensures Ascending(Inserted(parts, k, p))
  {
    var r := Inserted(parts, k, p);
    forall i, j | 0 <= i < j < |r|
      ensures r[i].offset < r[j].offset || r[i].offset == r[j].offset != 0
    {
      if i == k && j > k + 1 {
        assert parts[k].offset <= parts[j - 1].offset;
      }
    }
  }

  lemma {:induction false} SortAllAscends(parts: seq<Part>)
    ensures SortAll(parts).Some? ==> Ascending(SortAll(parts).value)
  {
    if parts != [] {
      SortAllAscends(parts[..|parts| - 1]);
      if SortAll(parts[..|parts| - 1]).Some? {
        SortAddAscends(SortAll(parts[..|parts| - 1]).value, parts[|parts| - 1]);
      }
    }
  }

  // --------------------------------------------------------- exact conditions

  /** Ascending, and every group of equal offsets reads the same in both directions. */
  ghost predicate Stable(parts: seq<Part>) {
    Ascending(parts) && forall k :: 0 <= k < |parts| ==> parts[Mirror(parts, k)] == parts[k]
  }

  /** Sorting in leaves exactly the stable lists, of all lists. */
  lemma SortAllExact(parts: seq<Part>)
    ensures SortAll(parts) == Some(parts) <==> Stable(parts)
  {
    SortAllAscends(parts);
    if Ascending(parts) {
      SortingMirrors(parts);
      assert Stable(parts) ==> Mirrored(parts) == parts;
    }
  }

  /** Partitions with the same offset differ in some other field. */
  ghost predicate TiesDiffer(parts: seq<Part>) {
    forall i, j :: 0 <= i < j < |parts| && parts[i].offset == parts[j].offset ==> parts[i] != parts[j]
  }

  /** When equal offsets always belong to different partitions, the stable lists are
      those without equal offsets. */
  lemma StableIsStrict(parts: seq<Part>)
    requires TiesDiffer(parts)
    ensures Stable(parts) <==> StrictlySorted(parts)
  {
    if Stable(parts) {
      forall i, j | 0 <= i < j < |parts|
        ensures parts[i].offset < parts[j].offset
      {
        if parts[i].offset == parts[j].offset {
          TieIsMirrored(parts, i, j);
        }
      }
    }
    if StrictlySorted(parts) {
      forall k | 0 <= k < |parts|
        ensures Mirror(parts, k) == k
      {
        assert Group(parts, k, k);
        GroupFirst(parts, k, k, k);
        GroupLast(parts, k, k, k);
      }
    }
  }

  /** A tie puts two partitions in one group, whose ends change places. */
  lemma TieIsMirrored(parts: seq<Part>, i: nat, j: nat)
    requires Stable(parts) && i < j < |parts| && parts[i].offset == parts[j].offset
    ensures !TiesDiffer(parts)
  {
    var f, l := First(parts, i), Last(parts, i);
    FirstIsEdge(parts, i);
    LastIsEdge(parts, i);
    assert l >= i + 1 by {
      assert parts[i].offset <= parts[i + 1].offset <= parts[j].offset;
    }
    assert Group(parts, f, l);
    GroupFirst(parts, f, l, f);
    GroupLast(parts, f, l, f);
    assert Mirror(parts, f) == l;
  }

  lemma {:induction false} LastIsEdge(parts: seq<Part>, k: nat)
    requires k < |parts|
    ensures Last(parts, k) + 1 < |parts| ==> parts[Last(parts, k) + 1].offset != parts[k].offset
    decreases |parts| - k
  {
    if k + 1 < |parts| && parts[k + 1].offset == parts[k].offset {
      LastIsEdge(parts, k + 1);
    }
  }

  /** Main theorem: parsing what was printed gives the table back exactly when the
      partitions of every device are stable, whatever else is in the table. */
  lemma TableRoundTrip(ids: seq<Id>, devices: seq<Device>)
    requires ValidIds(ids) && devices != [] && ValidTable(ids, devices)
    ensures ParseMtdparts(ids, PREFIX + DevicesText(devices, 0)) == Some(devices) <==>
      forall k :: 0 <= k < |devices| ==> Stable(devices[k].parts)
  {
    TableReadsBack(ids, devices);
    assert devices[..0] == [];
    ResortExact(devices, 0);
    forall k | 0 <= k < |devices|
      ensures SortAll(devices[k].parts) == Some(devices[k].parts) <==> Stable(devices[k].parts)
    {
      SortAllExact(devices[k].parts);
    }
  }

  /** For tables in which equal offsets belong to different partitions: the table comes
      back exactly when all offsets of a device are strictly ascending. */
  lemma TableRoundTripStrict(ids: seq<Id>, devices: seq<Device>)
    requires ValidIds(ids) && devices != [] && ValidTable(ids, devices)
    requires forall k :: 0 <= k < |devices| ==> TiesDiffer(devices[k].parts)
    ensures ParseMtdparts(ids, PREFIX + DevicesText(devices, 0)) == Some(devices) <==>
      forall k :: 0 <= k < |devices| ==> StrictlySorted(devices[k].parts)
  {
    TableRoundTrip(ids, devices);
    forall k | 0 <= k < |devices|
      ensures Stable(devices[k].parts) <==> StrictlySorted(devices[k].parts)
    {
      StableIsStrict(devices[k].parts);
    }
  }
}
