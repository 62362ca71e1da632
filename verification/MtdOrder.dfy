/**
 The sorted list of partitions of one device, and the number of the current
 partition that is kept in step with it. Partitions are objects with an identity,
 as in the linked list of the original.
 */
module MtdOrder {
  import opened Machine
  import opened Wrappers
  import opened MtdValidate
  import opened MtdText

  class PartInfo {
    const value: Part
    const name: string

    constructor (value: Part, name: string)
      ensures this.value == value && this.name == name
    {
      this.value := value;
      this.name := name;
    }
  }

  // ---------------------------------------------------- the sorted list

  /** Ascending offsets, and at most one partition at offset 0. */
  ghost predicate Ordered(parts: seq<PartInfo>) {
    forall i, j :: 0 <= i < j < |parts| ==> Before(parts[i], parts[j])
  }

  predicate Before(p: PartInfo, q: PartInfo) {
    p.value.offset < q.value.offset || p.value.offset == q.value.offset != 0
  }

  ghost predicate Distinct<T>(s: seq<T>) {
    forall i, j :: 0 <= i < j < |s| ==> s[i] != s[j]
  }

  /** Where a partition at this offset goes, counting from k: in front of the first
      one that is not below it. */
  function Place(parts: seq<PartInfo>, offset: u32, k: nat): (place: nat)
    requires k <= |parts|
    ensures k <= place <= |parts| && forall j :: k <= j < place ==> parts[j].value.offset < offset
    ensures place < |parts| ==> offset <= parts[place].value.offset
    decreases |parts| - k
  {
    if k == |parts| || offset <= parts[k].value.offset then k else Place(parts, offset, k + 1)
  }

  function PlaceOf(parts: seq<PartInfo>, p: PartInfo): (place: nat)
    ensures place <= |parts| && forall j :: 0 <= j < place ==> parts[j].value.offset < p.value.offset
    ensures place < |parts| ==> p.value.offset <= parts[place].value.offset
  {
    Place(parts, p.value.offset, 0)
  }

  function Inserted<T>(s: seq<T>, k: nat, x: T): (r: seq<T>)
    requires k <= |s|
    ensures |r| == |s| + 1 && r[k] == x
    ensures forall j :: 0 <= j < k ==> r[j] == s[j]
    ensures forall j :: k < j < |r| ==> r[j] == s[j - 1]
  {
    s[..k] + [x] + s[k..]
  }

  function Removed<T>(s: seq<T>, d: nat): (r: seq<T>)
    requires d < |s|
    ensures |r| == |s| - 1
    ensures forall j :: 0 <= j < d ==> r[j] == s[j]
    ensures forall j :: d <= j < |r| ==> r[j] == s[j + 1]
  {
    s[..d] + s[d + 1..]
  }

  predicate Clash(parts: seq<PartInfo>, p: PartInfo) {
    p.value.offset == 0 && parts != [] && parts[0].value.offset == 0
  }

  function Values(parts: seq<PartInfo>): seq<Part> {
    seq(|parts|, k requires 0 <= k < |parts| => parts[k].value)
  }

  /** The sorted insertion of the parser, by position. */
  lemma {:induction false} SortAddAt(parts: seq<Part>, p: Part, k: nat)
    requires k <= |parts| && forall j :: 0 <= j < k ==> parts[j].offset < p.offset
    requires k < |parts| ==> p.offset <= parts[k].offset
    requires p.offset != 0 || parts == [] || parts[0].offset != 0
    ensures SortAdd(parts, p) == Some(Inserted(parts, k, p))
  {
    if k == 0 {
      assert Inserted(parts, 0, p) == [p] + parts;
      assert parts == [] ==> [p] + parts == [p];
    } else {
      SortAddAt(parts[1..], p, k - 1);
      assert Inserted(parts, k, p) == [parts[0]] + Inserted(parts[1..], k - 1, p);
    }
  }

  /** The insertion into the list is the sorted insertion of the parser. */
  lemma InsertIsSortAdd(parts: seq<PartInfo>, p: PartInfo)
    ensures SortAdd(Values(parts), p.value) ==
      if Clash(parts, p) then None else Some(Values(Inserted(parts, PlaceOf(parts, p), p)))
  {
    if !Clash(parts, p) {
      var k := PlaceOf(parts, p);
      SortAddAt(Values(parts), p.value, k);
      assert Values(Inserted(parts, k, p)) == Inserted(Values(parts), k, p.value);
    }
  }

  lemma InsertedMultiset<T>(s: seq<T>, k: nat, x: T)
    requires k <= |s|
    ensures multiset(Inserted(s, k, x)) == multiset(s) + multiset{x}
  {
    assert s == s[..k] + s[k..];
  }

  lemma InsertedOrdered(parts: seq<PartInfo>, p: PartInfo)
    requires Ordered(parts) && !Clash(parts, p)
    ensures Ordered(Inserted(parts, PlaceOf(parts, p), p))
  {
    var k := PlaceOf(parts, p);
    var r := Inserted(parts, k, p);
    forall i, j | 0 <= i < j < |r|
      ensures Before(r[i], r[j])
    {
      if i == k && j > k + 1 {
        assert Before(parts[k], parts[j - 1]);
      }
    }
  }

  /** An addition keeps every partition, and the order unless there is a partition
      at offset 0 already, which is when it is refused. */
  lemma AddKeepsOrder(parts: seq<PartInfo>, p: PartInfo)
    requires Ordered(parts)
    ensures Clash(parts, p) <==> p.value.offset == 0 && exists k :: 0 <= k < |parts| && parts[k].value.offset == 0
    ensures Ordered(Inserted(parts, PlaceOf(parts, p), p)) <==> !Clash(parts, p)
    ensures multiset(Inserted(parts, PlaceOf(parts, p), p)) == multiset(parts) + multiset{p}
  {
    InsertedMultiset(parts, PlaceOf(parts, p), p);
    if Clash(parts, p) {
      ClashAtFront(parts, p);
    } else {
      InsertedOrdered(parts, p);
      assert parts != [] ==> forall k :: 0 < k < |parts| ==> Before(parts[0], parts[k]);
    }
  }

  lemma ClashAtFront(parts: seq<PartInfo>, p: PartInfo)
    requires Clash(parts, p)
    ensures !Ordered(Inserted(parts, PlaceOf(parts, p), p))
  {
    var r := Inserted(parts, PlaceOf(parts, p), p);
    assert !Before(r[0], r[1]);
  }

  lemma RemoveKeepsOrder(parts: seq<PartInfo>, d: nat)
    requires Ordered(parts) && d < |parts|
    ensures Ordered(Removed(parts, d))
    ensures multiset(parts) == multiset(Removed(parts, d)) + multiset{parts[d]}
  {
    assert parts == parts[..d] + [parts[d]] + parts[d + 1..];
  }

  // ------------------------------------------------ the current partition

  /** The partition of this number; num_parts is 16 bits wide. */
  function Current(parts: seq<PartInfo>, k: byte): PartInfo? {
    if k < |parts| % 0x1_0000 then parts[k] else null
  }

  /** The current number when p is put in front of another partition: one more if
      that one does not lie above the current one. */
  function AfterAdd(parts: seq<PartInfo>, k: byte, p: PartInfo): byte {
    var curr := Current(parts, k);
    var place := PlaceOf(parts, p);
    if curr != null && place < |parts| && parts[place].value.offset <= curr.value.offset then (k + 1) % 0x100 else k
  }

  /** The current number when partition d goes. */
  function AfterDelete(parts: seq<PartInfo>, k: byte, d: nat): byte
    requires d < |parts|
  {
    var curr := Current(parts, k);
    if curr == null then k
    else if curr == parts[d] then 0
    else if parts[d].value.offset <= curr.value.offset then (k as int - 1) % 0x100
    else k
  }

  ghost predicate WellKept(parts: seq<PartInfo>) {
    Ordered(parts) && Distinct(parts)
  }

  lemma AddKeepsList(parts: seq<PartInfo>, p: PartInfo)
    requires WellKept(parts) && p !in parts && !Clash(parts, p)
    ensures WellKept(Inserted(parts, PlaceOf(parts, p), p))
  {
    AddKeepsOrder(parts, p);
  }

  lemma DeleteKeepsList(parts: seq<PartInfo>, d: nat)
    requires WellKept(parts) && d < |parts|
    ensures WellKept(Removed(parts, d))
  {
    RemoveKeepsOrder(parts, d);
  }

  /** An addition leaves the same partition current, unless the number no longer
      fits in 8 bits. */
  lemma AddTracks(parts: seq<PartInfo>, k: byte, p: PartInfo)
    requires WellKept(parts) && p !in parts && |parts| + 1 < 0x1_0000 && Current(parts, k) != null
    ensures Current(Inserted(parts, PlaceOf(parts, p), p), AfterAdd(parts, k, p)) == Current(parts, k)
      <==> !(k == 0xFF && PlaceOf(parts, p) <= k)
  {
    var place := PlaceOf(parts, p);
    var r := Inserted(parts, place, p);
    if place <= k {
      assert place == k || Before(parts[place], parts[k]);
      assert r[k + 1] == parts[k];
      assert r[0] == if place == 0 then p else parts[0];
    } else {
      assert r[k] == parts[k];
      if place < |parts| {
        assert parts[k].value.offset < p.value.offset;
      }
    }
  }

  /** A deletion of another partition leaves the same one current, except when the
      deleted one lies behind it at the same offset: then the number is one too
      low, or 255 if it was 0. */
  lemma DeleteTracks(parts: seq<PartInfo>, k: byte, d: nat)
    requires WellKept(parts) && |parts| < 0x1_0000 && Current(parts, k) != null
    requires d < |parts| && d != k
    ensures Current(Removed(parts, d), AfterDelete(parts, k, d)) == Current(parts, k)
      <==> !(k < d && parts[d].value.offset == parts[k].value.offset)
  {
    var r := Removed(parts, d);
    if d < k {
      assert Before(parts[d], parts[k]);
      assert r[k - 1] == parts[k];
    } else {
      assert Before(parts[k], parts[d]);
      assert r[k] == parts[k];
    }
  }

  /** When the current partition itself is deleted the first one of those left becomes current. */
  lemma DeletedCurrentGoesFirst(parts: seq<PartInfo>, k: byte)
    requires WellKept(parts) && 1 < |parts| < 0x1_0000 && Current(parts, k) != null
    ensures Current(Removed(parts, k), AfterDelete(parts, k, k)) == Removed(parts, k)[0]
  {
  }

  /** What the number becomes where the current partition is lost; a number that denotes no
      partition stays. */
  lemma NumberWhenLost(parts: seq<PartInfo>, k: byte, p: PartInfo, d: nat)
    requires WellKept(parts) && |parts| < 0x1_0000 && d < |parts|
    ensures Current(parts, k) != null && k == 0xFF && PlaceOf(parts, p) <= k ==> AfterAdd(parts, k, p) == 0
    ensures Current(parts, k) != null && k < d && parts[d].value.offset == parts[k].value.offset ==>
      AfterDelete(parts, k, d) == if k == 0 then 0xFF else k - 1
    ensures Current(parts, k) == null ==> AfterAdd(parts, k, p) == AfterDelete(parts, k, d) == k
  {
    var place := PlaceOf(parts, p);
    if k < |parts| && place <= k {
      assert place == k || Before(parts[place], parts[k]);
    }
  }

  /** The failing case on one example: two partitions at the same offset, the first
      one current, the second one deleted. The number becomes 255 and denotes no
      partition. */
  lemma DeleteLosesCurrent(p: PartInfo, q: PartInfo)
    requires p != q && p.value.offset == q.value.offset != 0
    ensures WellKept([p, q]) && Current([p, q], 0) == p
    ensures AfterDelete([p, q], 0, 1) == 0xFF && Current(Removed([p, q], 1), 0xFF) == null
  {
    assert Removed([p, q], 1) == [p];
  }

  // ---------------------------------------------------------- whole runs

  datatype Edit = Add(p: PartInfo) | Delete(d: nat)

  /** An edit of a device that stays in the table, with a count that fits in 16 bits. */
  ghost predicate Possible(parts: seq<PartInfo>, e: Edit) {
    match e
    case Add(p) => p !in parts && |parts| + 1 < 0x1_0000
    case Delete(d) => d < |parts| && |parts| > 1
  }

  function Apply(parts: seq<PartInfo>, k: byte, e: Edit): (seq<PartInfo>, byte) {
    match e
    case Add(p) =>
      if Clash(parts, p) then (parts, k)
      else (Inserted(parts, PlaceOf(parts, p), p), AfterAdd(parts, k, p))
    case Delete(d) =>
      if d < |parts| then (Removed(parts, d), AfterDelete(parts, k, d)) else (parts, k)
  }

  /** What one edit does to the set of partitions: an addition adds just that one, unless there
      would be two at offset 0; a deletion takes just that one away. */
  lemma EditChanges(parts: seq<PartInfo>, k: byte, e: Edit)
    requires Ordered(parts)
    ensures var after := Apply(parts, k, e).0;
      match e
      case Add(p) =>
        if p.value.offset == 0 && (exists j :: 0 <= j < |parts| && parts[j].value.offset == 0) then after == parts
        else multiset(after) == multiset(parts) + multiset{p}
      case Delete(d) =>
        if d < |parts| then multiset(after) + multiset{parts[d]} == multiset(parts) else after == parts
  {
    match e
    case Add(p) =>
      AddKeepsOrder(parts, p);
    case Delete(d) =>
      if d < |parts| {
        RemoveKeepsOrder(parts, d);
      }
  }

  function ApplyAll(parts: seq<PartInfo>, k: byte, edits: seq<Edit>): (seq<PartInfo>, byte)
    decreases |edits|
  {
    if edits == [] then (parts, k)
    else
      var (parts', k') := Apply(parts, k, edits[0]);
      ApplyAll(parts', k', edits[1..])
  }

  /** The edit does not move the current partition to number 256, and does not delete
      it, nor one behind it at the same offset. */
  ghost predicate Spares(parts: seq<PartInfo>, k: byte, e: Edit) {
    match e
    case Add(p) => Clash(parts, p) || !(k == 0xFF && PlaceOf(parts, p) <= k)
    case Delete(d) =>
      d < |parts| && k < |parts| ==>
        d != k && !(k < d && parts[d].value.offset == parts[k].value.offset)
  }

  ghost predicate AllPossible(parts: seq<PartInfo>, k: byte, edits: seq<Edit>)
    decreases |edits|
  {
    edits != [] ==>
      var (parts', k') := Apply(parts, k, edits[0]);
      Possible(parts, edits[0]) && AllPossible(parts', k', edits[1..])
  }

  ghost predicate AllSpare(parts: seq<PartInfo>, k: byte, edits: seq<Edit>)
    decreases |edits|
  {
    edits != [] ==>
      var (parts', k') := Apply(parts, k, edits[0]);
      Spares(parts, k, edits[0]) && AllSpare(parts', k', edits[1..])
  }

  lemma EditKeepsList(parts: seq<PartInfo>, k: byte, e: Edit)
    requires WellKept(parts) && 0 < |parts| < 0x1_0000 && Possible(parts, e)
    ensures WellKept(Apply(parts, k, e).0) && 0 < |Apply(parts, k, e).0| < 0x1_0000
  {
    match e
    case Add(p) =>
      if !Clash(parts, p) {
        AddKeepsList(parts, p);
      }
    case Delete(d) =>
      DeleteKeepsList(parts, d);
  }

  lemma EditTracks(parts: seq<PartInfo>, k: byte, e: Edit)
    requires WellKept(parts) && 0 < |parts| < 0x1_0000 && Possible(parts, e)
    requires Current(parts, k) != null && Spares(parts, k, e)
    ensures Current(Apply(parts, k, e).0, Apply(parts, k, e).1) == Current(parts, k)
  {
    match e
    case Add(p) =>
      if !Clash(parts, p) {
        AddTracks(parts, k, p);
      }
    case Delete(d) =>
      DeleteTracks(parts, k, d);
  }

  /** Main theorem: through any run of additions and deletions on the current device
      the list stays sorted with at most one partition at offset 0, and the current
      partition stays the same object as long as the edits spare it. */
  lemma {:induction false} RunTracks(parts: seq<PartInfo>, k: byte, edits: seq<Edit>)
    requires WellKept(parts) && 0 < |parts| < 0x1_0000 && AllPossible(parts, k, edits)
    ensures WellKept(ApplyAll(parts, k, edits).0) && 0 < |ApplyAll(parts, k, edits).0| < 0x1_0000
    ensures Current(parts, k) != null && AllSpare(parts, k, edits) ==>
      Current(ApplyAll(parts, k, edits).0, ApplyAll(parts, k, edits).1) == Current(parts, k)
    decreases |edits|
  {
    if edits != [] {
      var e := edits[0];
      var (parts', k') := Apply(parts, k, e);
      EditKeepsList(parts, k, e);
      if Current(parts, k) != null && Spares(parts, k, e) {
        EditTracks(parts, k, e);
      }
      RunTracks(parts', k', edits[1..]);
    }
  }
}
