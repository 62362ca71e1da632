/**
 The device table in memory: additions, deletions, the current partition, and the
 environment variables that follow it.
 */
module MtdTable {
  import opened Machine
  import opened Wrappers
  import opened MtdText
  import opened MtdOrder

  class MtdDevice {
    const id: Id
    var parts: seq<PartInfo>
    var numParts: u16

    constructor (id: Id)
      ensures Valid() && this.id == id && parts == []
    {
      this.id := id;
      parts, numParts := [], 0;
    }

    ghost predicate Valid()
      reads this
    {
      WellKept(parts) && numParts == |parts| % 0x1_0000
    }

    /** The list and its count after an edit. */
    method Take(parts: seq<PartInfo>, numParts: u16)
      requires WellKept(parts) && numParts == |parts| % 0x1_0000
      modifies this`parts, this`numParts
      ensures Valid() && this.parts == parts
    {
      this.parts, this.numParts := parts, numParts;
    }
  }

  /** The variable mtddevname; Dangling is what comes of reading the name through a
      null pointer. */
  datatype Name = Unset | Named(name: string) | Dangling

  /** The number of a partition, counted over the devices from number k on; num_parts
      and mtddevnum hold 16 bits of such counts. */
  ghost function Numbered(devices: seq<MtdDevice>, k: nat, dev: MtdDevice, part: nat): nat
    requires k <= |devices|
    reads devices
    decreases |devices| - k
  {
    if k == |devices| || devices[k] == dev then part
    else |devices[k].parts| + Numbered(devices, k + 1, dev, part)
  }

  /** The partitions of all devices from number k on, one list behind the other. */
  ghost function AllParts(devices: seq<MtdDevice>, k: nat): seq<PartInfo>
    requires k <= |devices|
    reads devices
    decreases |devices| - k
  {
    if k == |devices| then [] else devices[k].parts + AllParts(devices, k + 1)
  }

  /** The number is the position in the list of all partitions. */
  lemma {:induction false} NumberIsPosition(devices: seq<MtdDevice>, k: nat, dev: MtdDevice, part: nat)
    requires k <= |devices| && dev in devices[k..] && part < |dev.parts|
    ensures Numbered(devices, k, dev, part) < |AllParts(devices, k)|
    ensures AllParts(devices, k)[Numbered(devices, k, dev, part)] == dev.parts[part]
    decreases |devices| - k
  {
    if devices[k] != dev {
      assert devices[k..] == [devices[k]] + devices[k + 1..];
      NumberIsPosition(devices, k + 1, dev, part);
    }
  }

  class Table {
    var devices: seq<MtdDevice>
    var currentDev: MtdDevice?
    var currentPart: byte
    var mtddevnum: Option<u16>
    var mtddevname: Name
    var partition: Option<(int, int, byte)>

    constructor ()
      ensures Valid() && devices == []
    {
      devices, currentDev, currentPart := [], null, 0;
      mtddevnum, mtddevname, partition := None, Unset, None;
    }

    ghost predicate Linked()
      reads this, devices
    {
      && Distinct(devices)
      && (forall d :: d in devices ==> d.Valid())
      && (currentDev != null ==> currentDev in devices)
    }

    /** mtddevnum and mtddevname describe the current partition. */
    ghost predicate Indexed()
      reads this, devices, currentDev
    {
      if currentDev == null then mtddevnum == None && mtddevname == Unset
      else
        && mtddevnum == Some(Numbered(devices, 0, currentDev, currentPart) % 0x1_0000)
        && mtddevname == NameOf(Current(currentDev.parts, currentPart))
    }

    /** The variable `partition` describes it as well. */
    ghost predicate Saved()
      reads this
    {
      partition == if currentDev == null then None else Some((currentDev.id.kind, currentDev.id.num, currentPart))
    }

    static function NameOf(part: PartInfo?): Name {
      if part == null then Dangling else Named(part.name)
    }

    ghost predicate Valid()
      reads this, devices, currentDev
    {
      Linked() && Indexed() && Saved()
    }

    /** mtd_part_info. */
    method MtdPartInfo(dev: MtdDevice, partNum: byte) returns (part: PartInfo?)
      requires dev.Valid()
      ensures part == Current(dev.parts, partNum)
    {
      if partNum >= dev.numParts {
        return null;
      }
      var num := 0;
      while num < |dev.parts|
        invariant num <= partNum
      {
        part := dev.parts[num];
        if partNum == num {
          return;
        }
        num := num + 1;
      }
      part := null;
    }

    /** index_partitions. */
    method IndexPartitions()
      requires Linked()
      modifies this`mtddevnum, this`mtddevname
      ensures Indexed()
    {
      if currentDev == null {
        mtddevnum, mtddevname := None, Unset;
        return;
      }
      NumberCurrent(currentDev);
      var part := MtdPartInfo(currentDev, currentPart);
      mtddevname := NameOf(part);
    }

    /** The loop of index_partitions. */
    method NumberCurrent(dev: MtdDevice)
      requires Linked() && dev in devices
      modifies this`mtddevnum
      ensures mtddevnum == Some(Numbered(devices, 0, dev, currentPart) % 0x1_0000)
    {
      var num: u16 := 0;
      ghost var exact: nat := 0;
      var k := 0;
      while k < |devices|
        invariant k <= |devices| && forall j :: 0 <= j < k ==> devices[j] != dev
        invariant num == exact % 0x1_0000
        invariant exact + Numbered(devices, k, dev, currentPart) == Numbered(devices, 0, dev, currentPart)
      {
        if devices[k] == dev {
          num := Sum(num, currentPart, exact, currentPart);
          mtddevnum := Some(num);
          return;
        }
        assert devices[k] in devices;
        num := Sum(num, devices[k].numParts, exact, |devices[k].parts|);
        exact := exact + |devices[k].parts|;
        k := k + 1;
      }
    }

    /** The sum of two u16, for numbers of which these are the low bits. */
    static method Sum(a: u16, b: u16, ghost x: nat, ghost y: nat) returns (c: u16)
      requires a == x % 0x1_0000 && b == y % 0x1_0000
      ensures c == (x + y) % 0x1_0000
    {
      AddModulo(x, y);
      c := (a + b) % 0x1_0000;
    }

    static lemma AddModulo(a: nat, b: nat)
      ensures (a % 0x1_0000 + b % 0x1_0000) % 0x1_0000 == (a + b) % 0x1_0000
    {
    }

    /** current_save. */
    method CurrentSave()
      requires Linked()
      modifies this`mtddevnum, this`mtddevname, this`partition
      ensures Indexed() && Saved()
    {
      partition := if currentDev == null then None else Some((currentDev.id.kind, currentDev.id.num, currentPart));
      IndexPartitions();
    }

    /** part_sort_add, for a device of the table or a new one. */
    method PartSortAdd(dev: MtdDevice, p: PartInfo) returns (ok: bool)
      requires Valid() && dev.Valid() && p !in dev.parts
      modifies this`currentPart, this`mtddevnum, this`mtddevname, this`partition, dev`parts, dev`numParts
      ensures Valid() && dev.Valid()
      ensures ok == !Clash(old(dev.parts), p)
      ensures dev.parts == if ok then Inserted(old(dev.parts), PlaceOf(old(dev.parts), p), p) else old(dev.parts)
      ensures currentPart ==
        if ok && dev == currentDev then AfterAdd(old(dev.parts), old(currentPart), p) else old(currentPart)
    {
      if dev.parts == [] {
        Link(dev, p, 0);
        IndexPartitions();
        return true;
      }
      var curr: PartInfo? := null;
      if dev == currentDev {
        curr := MtdPartInfo(dev, currentPart);
      }
      var k := 0;
      while k < |dev.parts|
        invariant k <= |dev.parts| && forall j :: 0 <= j < k ==> dev.parts[j].value.offset < p.value.offset
      {
        var pi := dev.parts[k];
        if p.value.offset == pi.value.offset && pi.value.offset == 0 {
          return false;
        }
        if p.value.offset <= pi.value.offset {
          PutBefore(dev, p, k, curr);
          return true;
        }
        k := k + 1;
      }
      Link(dev, p, k);
      IndexPartitions();
      ok := true;
    }

    /** The insertion in front of another partition, and what it does to the current one. */
    method PutBefore(dev: MtdDevice, p: PartInfo, k: nat, curr: PartInfo?)
      requires Valid() && dev.Valid() && p !in dev.parts && !Clash(dev.parts, p)
      requires curr == if dev == currentDev then Current(dev.parts, currentPart) else null
      requires k < |dev.parts| && forall j :: 0 <= j < k ==> dev.parts[j].value.offset < p.value.offset
      requires p.value.offset <= dev.parts[k].value.offset
      modifies this`currentPart, this`mtddevnum, this`mtddevname, this`partition, dev`parts, dev`numParts
      ensures Valid() && dev.Valid() && dev.parts == Inserted(old(dev.parts), PlaceOf(old(dev.parts), p), p)
      ensures currentPart ==
        if dev == currentDev then AfterAdd(old(dev.parts), old(currentPart), p) else old(currentPart)
    {
      var pi := dev.parts[k];
      Link(dev, p, k);
      if curr != null && pi.value.offset <= curr.value.offset {
        currentPart := (currentPart + 1) % 0x100;
        CurrentSave();
      } else {
        IndexPartitions();
      }
    }

    /** list_add and num_parts++. */
    method Link(dev: MtdDevice, p: PartInfo, k: nat)
      requires Linked() && dev.Valid() && p !in dev.parts && !Clash(dev.parts, p)
      requires k <= |dev.parts| && forall j :: 0 <= j < k ==> dev.parts[j].value.offset < p.value.offset
      requires k < |dev.parts| ==> p.value.offset <= dev.parts[k].value.offset
      modifies dev`parts, dev`numParts
      ensures Linked() && dev.Valid() && k == PlaceOf(old(dev.parts), p)
      ensures dev.parts == Inserted(old(dev.parts), k, p)
    {
      AddKeepsList(dev.parts, p);
      AddModulo(|dev.parts|, 1);
      assert k == PlaceOf(dev.parts, p);
      dev.Take(dev.parts[..k] + [p] + dev.parts[k..], (dev.numParts + 1) % 0x1_0000);
    }

    /** device_add. */
    method DeviceAdd(dev: MtdDevice)
      requires Valid() && dev.Valid() && dev !in devices
      modifies this
      ensures Valid() && devices == old(devices) + [dev]
      ensures old(devices) == [] ==> currentDev == dev && currentPart == 0
      ensures old(devices) != [] ==> currentDev == old(currentDev) && currentPart == old(currentPart)
    {
      var save := false;
      if devices == [] {
        currentDev, currentPart := dev, 0;
        save := true;
      }
      devices := devices + [dev];
      if save {
        CurrentSave();
      } else {
        IndexPartitions();
      }
    }

    /** device_del: the partitions are freed, then the device, which is taken off the
        list if it is there, at place n. */
    method DeviceDel(dev: MtdDevice, ghost n: nat)
      requires Valid() && (dev in devices ==> n < |devices| && devices[n] == dev)
      modifies this, dev
      ensures Valid() && dev.parts == []
      ensures devices == if dev in old(devices) then Removed(old(devices), n) else old(devices)
      ensures dev != old(currentDev) ==> currentDev == old(currentDev) && currentPart == old(currentPart)
      ensures dev == old(currentDev) && devices == [] ==> currentDev == null
      ensures dev == old(currentDev) && devices != [] ==> currentDev == devices[0] && currentPart == 0
    {
      dev.parts := [];
      TakeOff(dev, n);
      if dev == currentDev {
        if devices == [] {
          currentDev := null;
        } else {
          currentDev, currentPart := devices[0], 0;
        }
        CurrentSave();
        return;
      }
      IndexPartitions();
    }

    /** list_del, which does nothing to a device that is not linked. */
    method TakeOff(dev: MtdDevice, ghost n: nat)
      requires Distinct(devices) && (dev in devices ==> n < |devices| && devices[n] == dev)
      modifies this`devices
      ensures devices == if dev in old(devices) then Removed(old(devices), n) else old(devices)
      ensures dev !in devices && Distinct(devices)
      ensures forall d :: d in old(devices) && d != dev ==> d in devices
      ensures forall d :: d in devices ==> d in old(devices)
    {
      var k := 0;
      while k < |devices| && devices[k] != dev
        invariant k <= |devices| && forall j :: 0 <= j < k ==> devices[j] != dev
      {
        k := k + 1;
      }
      if k < |devices| {
        devices := devices[..k] + devices[k + 1..];
      }
    }

    /** part_del; the device goes with its last partition. */
    method PartDel(dev: MtdDevice, part: PartInfo, ghost n: nat, ghost d: nat)
      requires Valid() && n < |devices| && devices[n] == dev && d < |dev.parts| && dev.parts[d] == part
      modifies this, dev
      ensures Valid()
      ensures old(dev.numParts) == 1 ==>
        && devices == Removed(old(devices), n)
        && if dev != old(currentDev) then currentDev == old(currentDev) && currentPart == old(currentPart)
           else if devices == [] then currentDev == null
           else currentDev == devices[0] && currentPart == 0
      ensures old(dev.numParts) != 1 ==>
        && devices == old(devices) && currentDev == old(currentDev)
        && dev.parts == Removed(old(dev.parts), d)
        && currentPart ==
          if dev == currentDev then AfterDelete(old(dev.parts), old(currentPart), d) else old(currentPart)
    {
      if dev.numParts == 1 {
        DeviceDel(dev, n);
        return;
      }
      var save := false;
      if dev == currentDev {
        var curr := MtdPartInfo(dev, currentPart);
        if curr != null {
          if curr == part {
            currentPart := 0;
          } else if part.value.offset <= curr.value.offset {
            currentPart := (currentPart as int - 1) % 0x100;
          }
          save := true;
        }
      }
      Unlink(dev, part, d);
      if save {
        CurrentSave();
      } else {
        IndexPartitions();
      }
    }

    /** list_del and num_parts--. */
    method Unlink(dev: MtdDevice, part: PartInfo, ghost d: nat)
      requires Linked() && dev.Valid() && d < |dev.parts| && dev.parts[d] == part
      modifies dev`parts, dev`numParts
      ensures Linked() && dev.Valid() && dev.parts == Removed(old(dev.parts), d)
    {
      DeleteKeepsList(dev.parts, d);
      var k := 0;
      while dev.parts[k] != part
        invariant k <= d
        decreases d - k
      {
        k := k + 1;
      }
      AddModulo(|dev.parts| - 1, 1);
      dev.Take(dev.parts[..k] + dev.parts[k + 1..], (dev.numParts as int - 1) % 0x1_0000);
    }

    /** chpart, for a partition that was found. */
    method ChPart(dev: MtdDevice, partNum: byte)
      requires Valid() && dev in devices && Current(dev.parts, partNum) != null
      modifies this`currentDev, this`currentPart, this`mtddevnum, this`mtddevname, this`partition
      ensures Valid() && currentDev == dev && currentPart == partNum
    {
      currentDev, currentPart := dev, partNum;
      CurrentSave();
    }

    /** mtd_devices_init. */
    method DevicesInit()
      requires Valid()
      modifies this
      ensures Valid() && devices == [] && currentDev == null
    {
      currentDev := null;
      CurrentSave();
      devices := [];
    }

    /** Main result, for every valid table: mtddevnum holds 16 bits of the position of
        the current partition in the list of all partitions, and mtddevname is its name;
        it names nothing exactly when the current number denotes no partition. */
    lemma VariablesNameCurrent()
      requires Valid() && currentDev != null
      ensures var curr := Current(currentDev.parts, currentPart);
        && (mtddevname.Named? <==> curr != null)
        && (curr != null ==>
              var number := Numbered(devices, 0, currentDev, currentPart);
              && number < |AllParts(devices, 0)| && AllParts(devices, 0)[number] == curr
              && mtddevnum == Some(number % 0x1_0000)
              && mtddevname == Named(curr.name))
    {
      assert devices[0..] == devices;
      if Current(currentDev.parts, currentPart) != null {
        NumberIsPosition(devices, 0, currentDev, currentPart);
      }
    }
  }
}
