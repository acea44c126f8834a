/** The global device list with its current partition, updated in place by cmd_mtdparts.c. */
module MtdTable {
  import opened Bytes
  import opened MtdText
  import opened MtdParts

  class PartInfo {
    const info: Part

    constructor (info: Part)
      ensures this.info == info
    {
      this.info := info;
    }
  }

  class MtdDevice {
    const id: MtdId
    var parts: seq<PartInfo>
    var numParts: nat

    constructor (id: MtdId)
      ensures this.id == id && parts == [] && numParts == 0
    {
      this.id := id;
      parts, numParts := [], 0;
    }

    /** The list is sorted by offset and `num_parts` is its length. */
    ghost predicate Valid()
      reads this
    {
      numParts == |parts| < 0x1_0000 && Sorted(parts) && Distinct(parts)
    }
  }

  ghost predicate Sorted(parts: seq<PartInfo>) {
    forall i, j :: 0 <= i < j < |parts| ==> parts[i].info.offset <= parts[j].info.offset
  }

  ghost predicate Distinct<T>(s: seq<T>) {
    forall i, j :: 0 <= i < j < |s| ==> s[i] != s[j]
  }

  function Infos(parts: seq<PartInfo>): (r: seq<Part>)
    ensures |r| == |parts| && forall i :: 0 <= i < |r| ==> r[i] == parts[i].info
  {
    if parts == [] then [] else [parts[0].info] + Infos(parts[1..])
  }

  /** All partitions of all devices in order: what the global number counts through. */
  ghost function Flat(devices: seq<MtdDevice>): seq<PartInfo>
    reads devices
  {
    if devices == [] then [] else Flat(devices[..|devices| - 1]) + devices[|devices| - 1].parts
  }

  function Place(parts: seq<PartInfo>, o: word): (k: nat)
    ensures k <= |parts|
    ensures forall i :: 0 <= i < k ==> parts[i].info.offset < o
    ensures k < |parts| ==> o <= parts[k].info.offset
  {
    if parts == [] || o <= parts[0].info.offset then 0 else 1 + Place(parts[1..], o)
  }

  class MtdTable {
    var devices: seq<MtdDevice>
    var currentDev: MtdDevice?
    var currentPart: nat                       // u8 current_mtd_partnum
    var mtddevnum: Option<nat>                 // the environment variables of these names
    var partition: Option<(MtdId, nat)>

    ghost predicate Structure()
      reads this, devices
    {
      && Distinct(devices)
      && (forall i :: 0 <= i < |devices| ==> devices[i].Valid() && devices[i].parts != [])
      && (currentDev == null <==> devices == [])
      && (currentDev != null ==> currentDev in devices)
      && currentPart < 256
    }

    ghost predicate InRange()
      reads this, currentDev
    {
      currentDev != null ==> currentPart < |currentDev.parts|
    }

    /** `partition` names the current partition. */
    ghost predicate PartitionSaved()
      reads this
    {
      partition == if currentDev == null then None else Some((currentDev.id, currentPart))
    }

    /** `mtddevnum` is its number when the partitions of all devices are counted through. */
    ghost predicate NumberSaved()
      reads this, devices
    {
      if currentDev == null then mtddevnum == None
      else mtddevnum.Some? && forall k :: 0 <= k < |devices| && devices[k] == currentDev ==>
             mtddevnum.value == (|Flat(devices[..k])| + currentPart) % 0x1_0000
    }

    ghost predicate InSync()
      reads this, devices
    {
      PartitionSaved() && NumberSaved()
    }

    ghost predicate Valid()
      reads this, devices, currentDev
    {
      Structure() && InRange() && InSync()
    }

    ghost function Current(): PartInfo
      requires currentDev != null && InRange()
      reads this, currentDev
    {
      currentDev.parts[currentPart]
    }

    constructor ()
      ensures Valid() && devices == []
    {
      devices, currentDev, currentPart := [], null, 0;
      mtddevnum, partition := None, None;
    }

    method IndexPartitions()
      requires Structure()
      modifies this`mtddevnum
      ensures Structure() && NumberSaved()
    {
      hide Flat, Sorted, Distinct;
      if currentDev == null {
        mtddevnum := None;
        return;
      }
      ghost var c :| 0 <= c < |devices| && devices[c] == currentDev;
      OnlyIndex(devices, c);
      var num := NumbersBefore(c);
      num := (num + currentPart) % 0x1_0000;
      mtddevnum := Some(num);
    }

    /** The counting loop of `index_partitions`, in a u16. */
    method NumbersBefore(ghost c: nat) returns (num: nat)
      requires c < |devices| && devices[c] == currentDev
      requires forall i :: 0 <= i < c ==> devices[i].numParts == |devices[i].parts| && devices[i] != currentDev
      ensures num == |Flat(devices[..c])| % 0x1_0000
    {
      assert Flat(devices[..0]) == [];
      hide Flat;
      num := 0;
      var i := 0;
      while devices[i] != currentDev
        invariant i <= c && num == |Flat(devices[..i])| % 0x1_0000
        decreases c - i
      {
        FlatNext(devices, i);
        num := (num + devices[i].numParts) % 0x1_0000;
        i := i + 1;
      }
    }

    method CurrentSave()
      requires Structure()
      modifies this`mtddevnum, this`partition
      ensures Structure() && InSync()
    {
      partition := if currentDev == null then None else Some((currentDev.id, currentPart));
      IndexPartitions();
    }

    /** `mtd_part_info`. */
    method PartInfoAt(dev: MtdDevice, n: nat) returns (p: PartInfo?)
      requires dev.Valid()
      ensures p == if n < |dev.parts| then dev.parts[n] else null
    {
      if n >= dev.numParts {
        return null;
      }
      return dev.parts[n];
    }

    /** `part_sort_add`: `dev` may be in the list already or still be under construction. */
    method PartSortAdd(dev: MtdDevice, part: PartInfo) returns (ok: bool)
      requires Valid() && dev.Valid() && part !in dev.parts && |dev.parts| < 0xFFFF
      modifies this`currentPart, this`mtddevnum, this`partition, dev
      ensures Valid() && dev.Valid()
      ensures ok <==> Insert(Infos(old(dev.parts)), part.info).Some?
      ensures !ok ==> dev.parts == old(dev.parts) && currentPart == old(currentPart)
      ensures ok ==>
        && dev.parts == Placed(old(dev.parts), part)
        && Insert(Infos(old(dev.parts)), part.info) == Some(Infos(dev.parts))
        && currentPart == (if dev == currentDev then IndexAfterInsert(old(dev.parts), old(currentPart), part.info.offset)
                           else old(currentPart))
    {
      hide Place, Placed, Insert, Infos, NumberSaved, Sorted, Distinct;
      InsertAtPlace(dev.parts, part);
      var curr: PartInfo? := null;
      if dev == currentDev {
        curr := PartInfoAt(currentDev, currentPart);
      }
      var at := FindPlace(dev, part);
      if at.None? {
        return false;
      }
      if dev == currentDev {
        PlaceOrder(dev.parts, part.info.offset, currentPart);
        PlacedAt(dev.parts, part, currentPart);
      }
      var shift := at.value < |dev.parts| && curr != null && dev.parts[at.value].info.offset <= curr.info.offset;
      Link(dev, at.value, part);
      SaveMoved(shift);
      return true;
    }

    /** Moves the index on when the new partition stands in front of the current one. */
    method SaveMoved(shift: bool)
      requires Structure() && PartitionSaved()
      modifies this`currentPart, this`mtddevnum, this`partition
      ensures Structure() && InSync()
      ensures currentPart == if shift then (old(currentPart) + 1) % 256 else old(currentPart)
    {
      hide NumberSaved, Distinct, MtdDevice.Valid;
      if shift {
        currentPart := (currentPart + 1) % 256;
        CurrentSave();
      } else {
        IndexPartitions();
      }
    }

    /** `list_add_tail` before the k-th entry, and the count. */
    method Link(dev: MtdDevice, k: nat, part: PartInfo)
      requires Structure() && dev.Valid() && part !in dev.parts && |dev.parts| < 0xFFFF
      requires k == Place(dev.parts, part.info.offset)
      modifies dev
      ensures Structure() && dev.Valid()
      ensures dev.parts == Placed(old(dev.parts), part)
    {
      hide Place;
      InsertKeeps(dev.parts, part);
      dev.parts := dev.parts[..k] + [part] + dev.parts[k..];
      dev.numParts := dev.numParts + 1;
    }

    /** `device_del`: a deleted current device hands over to the first partition of the first one. */
    method DeviceDel(dev: MtdDevice, ghost at: nat)
      requires Valid() && at < |devices| && devices[at] == dev
      modifies this
      ensures Valid()
      ensures devices == old(devices)[..at] + old(devices)[at + 1..]
      ensures dev != old(currentDev) ==>
        currentDev == old(currentDev) && currentPart == old(currentPart) && Current() == old(Current())
      ensures dev == old(currentDev) ==>
        if devices == [] then currentDev == null else currentDev == devices[0] && currentPart == 0
    {
      hide NumberSaved, MtdDevice.Valid, Distinct;
      var i := FindDevice(dev, at);
      CutOut(devices, i);
      devices := devices[..i] + devices[i + 1..];
      if dev == currentDev {
        if devices == [] {
          currentDev := null;
        } else {
          currentDev := devices[0];
          currentPart := 0;
        }
        CurrentSave();
        return;
      }
      IndexPartitions();
    }

    method FindDevice(dev: MtdDevice, ghost at: nat) returns (i: nat)
      requires Distinct(devices) && at < |devices| && devices[at] == dev
      ensures i == at
    {
      i := 0;
      while devices[i] != dev
        invariant i <= at
        decreases at - i
      {
        i := i + 1;
      }
    }

    method DeviceAdd(dev: MtdDevice)
      requires Valid() && dev.Valid() && dev.parts != [] && dev !in devices
      modifies this
      ensures Valid() && devices == old(devices) + [dev]
      ensures old(devices) != [] ==> currentDev == old(currentDev) && currentPart == old(currentPart)
      ensures old(devices) == [] ==> currentDev == dev && currentPart == 0
    {
      hide NumberSaved;
      var first := devices == [];
      if first {
        currentDev := dev;
        currentPart := 0;
      }
      devices := devices + [dev];
      if first {
        CurrentSave();
      } else {
        IndexPartitions();
      }
    }

    /** `part_del`: the index stays in range unless the deleted partition stood behind a current
        index 0 at the same offset, with fewer than 256 left; it names the partition it named before
        exactly when the deleted one stood nowhere behind it at the same offset. */
    method PartDel(dev: MtdDevice, ghost at: nat, part: PartInfo, ghost n: nat)
      requires Valid() && at < |devices| && devices[at] == dev && n < |dev.parts| && dev.parts[n] == part
      modifies this, dev
      ensures Structure() && InSync()
      ensures old(|dev.parts|) == 1 ==> InRange() && devices == old(devices)[..at] + old(devices)[at + 1..]
      ensures old(|dev.parts|) == 1 && dev != old(currentDev) ==>
        currentDev == old(currentDev) && currentPart == old(currentPart) && Current() == old(Current())
      ensures old(|dev.parts|) == 1 && dev == old(currentDev) ==>
        if devices == [] then currentDev == null else currentDev == devices[0] && currentPart == 0
      ensures old(|dev.parts|) > 1 ==>
        && devices == old(devices) && currentDev == old(currentDev)
        && dev.parts == old(dev.parts)[..n] + old(dev.parts)[n + 1..]
      ensures old(|dev.parts|) > 1 && dev != currentDev ==> InRange() && Current() == old(Current())
      ensures old(|dev.parts|) > 1 && dev == currentDev ==>
        && currentPart == IndexAfterDelete(old(dev.parts), old(currentPart), n)
        && (InRange() <==> !(Behind(old(dev.parts), old(currentPart), n) && old(currentPart) == 0 && |dev.parts| < 256))
        && (n == old(currentPart) ==> Current() == dev.parts[0])
        && (n != old(currentPart) && InRange() ==>
              (Current() == old(Current()) <==> !Behind(old(dev.parts), old(currentPart), n)))
    {
      hide NumberSaved, Sorted;
      if dev.numParts == 1 {
        DeviceDel(dev, at);
        return;
      }
      assert forall i :: 0 <= i < |dev.parts| && dev.parts[i] == part ==> i == n;
      var save := false;
      if dev == currentDev {
        DeleteIndex(dev.parts, currentPart, n);
        var curr := PartInfoAt(currentDev, currentPart);
        if curr != null {
          if curr == part {
            currentPart := 0;
          } else if part.info.offset <= curr.info.offset {
            currentPart := (currentPart + 255) % 256;
          }
          save := true;
        }
      }
      Unlink(dev, part, n);
      if save {
        CurrentSave();
      } else {
        IndexPartitions();
      }
    }

    /** `list_del`, and the count. */
    method Unlink(dev: MtdDevice, part: PartInfo, ghost n: nat)
      requires Structure() && dev in devices && n < |dev.parts| && dev.parts[n] == part && |dev.parts| > 1
      modifies dev
      ensures Structure()
      ensures dev.parts == old(dev.parts)[..n] + old(dev.parts)[n + 1..]
    {
      var i := 0;
      while dev.parts[i] != part
        invariant i <= n
        decreases n - i
      {
        i := i + 1;
      }
      ghost var before := dev.parts;
      dev.parts := dev.parts[..i] + dev.parts[i + 1..];
      dev.numParts := dev.numParts - 1;
      assert forall j :: 0 <= j < |dev.parts| ==> dev.parts[j] == before[if j < i then j else j + 1];
    }

    /** The search loop of `part_sort_add`. */
    method FindPlace(dev: MtdDevice, part: PartInfo) returns (k: Option<nat>)
      requires dev.Valid()
      ensures k.None? <==> dev.parts != [] && dev.parts[0].info.offset == part.info.offset == 0
      ensures k.Some? ==> k.value == Place(dev.parts, part.info.offset)
    {
      var i := 0;
      while i < |dev.parts|
        invariant i <= |dev.parts| && forall j :: 0 <= j < i ==> dev.parts[j].info.offset < part.info.offset
        invariant i > 0 ==> dev.parts[0].info.offset < part.info.offset
      {
        var pi := dev.parts[i];
        if part.info.offset == pi.info.offset && pi.info.offset == 0 {
          return None;
        }
        if part.info.offset <= pi.info.offset {
          break;
        }
        i := i + 1;
      }
      return Some(i);
    }
  }

  lemma OnlyIndex<T>(s: seq<T>, c: nat)
    requires Distinct(s) && c < |s|
    ensures forall k :: 0 <= k < |s| && s[k] == s[c] ==> k == c
    ensures forall k :: 0 <= k < c ==> s[k] != s[c]
  {
  }

  /** The list without one of its devices. */
  lemma CutOut(devices: seq<MtdDevice>, i: nat)
    requires i < |devices| && Distinct(devices)
    requires forall k :: 0 <= k < |devices| ==> devices[k].Valid() && devices[k].parts != []
    ensures var rest := devices[..i] + devices[i + 1..];
      && Distinct(rest) && (forall k :: 0 <= k < |rest| ==> rest[k].Valid() && rest[k].parts != [])
      && forall d :: d in devices && d != devices[i] ==> d in rest
  {
    hide MtdDevice.Valid;
    var rest := devices[..i] + devices[i + 1..];
    assert forall j :: 0 <= j < |rest| ==> rest[j] == devices[if j < i then j else j + 1];
    forall d | d in devices && d != devices[i]
      ensures d in rest
    {
      var c :| 0 <= c < |devices| && devices[c] == d;
      assert rest[if c < i then c else c - 1] == d;
    }
  }

  lemma FlatNext(devices: seq<MtdDevice>, i: nat)
    requires i < |devices|
    ensures Flat(devices[..i + 1]) == Flat(devices[..i]) + devices[i].parts
  {
    assert devices[..i + 1][..i] == devices[..i];
  }

  /** The global number of a partition is its position among all partitions. */
  lemma {:induction false} FlatAt(devices: seq<MtdDevice>, k: nat, j: nat)
    requires k < |devices| && j < |devices[k].parts|
    ensures |Flat(devices[..k])| + j < |Flat(devices)|
    ensures Flat(devices)[|Flat(devices[..k])| + j] == devices[k].parts[j]
  {
    var init := devices[..|devices| - 1];
    if k < |init| {
      FlatAt(init, k, j);
      assert init[..k] == devices[..k];
    }
  }

  /** In a sorted list the comparison of offsets that decides about the current index is the
      comparison of positions. */
  lemma PlaceOrder(parts: seq<PartInfo>, o: word, n: nat)
    requires Sorted(parts) && n < |parts|
    ensures var k := Place(parts, o);
            k < |parts| ==> (parts[k].info.offset <= parts[n].info.offset <==> k <= n)
    ensures Place(parts, o) == |parts| ==> Place(parts, o) > n
  {
    var k := Place(parts, o);
    assert n < k ==> parts[n].info.offset < o;
  }

  lemma InsertKeeps(parts: seq<PartInfo>, part: PartInfo)
    requires Sorted(parts) && Distinct(parts) && part !in parts
    ensures Sorted(Placed(parts, part)) && Distinct(Placed(parts, part))
  {
    var k := Place(parts, part.info.offset);
    var parts' := parts[..k] + [part] + parts[k..];
    hide Place;
    forall i, j | 0 <= i < j < |parts'|
      ensures parts'[i].info.offset <= parts'[j].info.offset && parts'[i] != parts'[j]
    {
      var x, y := if i <= k then i else i - 1, if j <= k then j else j - 1;
      assert i != k ==> parts'[i] == parts[x];
      assert j != k ==> parts'[j] == parts[y];
      assert i < k ==> parts[x].info.offset < part.info.offset;
      if j > k {
        assert part.info.offset <= parts[k].info.offset;
        assert k < y ==> parts[k].info.offset <= parts[y].info.offset;
      }
    }
  }

  /** The in-place insertion is the list insertion that the parser uses. */
  lemma {:induction false} InsertAtPlace(parts: seq<PartInfo>, part: PartInfo)
    ensures Insert(Infos(parts), part.info) ==
      if parts != [] && parts[0].info.offset == part.info.offset == 0 then None
      else Some(Infos(Placed(parts, part)))
  {
    if parts == [] {
      assert Placed(parts, part) == [part] + [];
      InfosCons(part, []);
      assert Infos(parts) == [] && Infos(Placed(parts, part)) == [part.info];
    } else if part.info.offset <= parts[0].info.offset {
      assert Placed(parts, part) == [part] + parts;
      InfosCons(part, parts);
      hide Infos;
    } else {
      var tail := parts[1..];
      InsertAtPlace(tail, part);
      PlacedLater(parts, part);
      InfosCons(parts[0], Placed(tail, part));
      InfosCons(parts[0], tail);
      assert [parts[0]] + tail == parts;
      hide Infos, Placed, Place;
      assert Infos(parts)[1..] == Infos(tail);
    }
  }

  lemma PlacedLater(parts: seq<PartInfo>, part: PartInfo)
    requires parts != [] && part.info.offset > parts[0].info.offset
    ensures Placed(parts, part) == [parts[0]] + Placed(parts[1..], part)
  {
    var k := Place(parts[1..], part.info.offset);
    assert Place(parts, part.info.offset) == 1 + k;
    hide Place;
    assert parts[..k + 1] == [parts[0]] + parts[1..][..k] && parts[k + 1..] == parts[1..][k..];
  }

  /** The list with the new partition in its place. */
  function Placed(parts: seq<PartInfo>, part: PartInfo): seq<PartInfo> {
    var k := Place(parts, part.info.offset);
    parts[..k] + [part] + parts[k..]
  }

  lemma InfosCons(p: PartInfo, parts: seq<PartInfo>)
    ensures Infos([p] + parts) == [p.info] + Infos(parts)
  {
    assert ([p] + parts)[1..] == parts;
  }

  // ---------- what the adjusted index names ----------

  function IndexAfterInsert(parts: seq<PartInfo>, cur: nat, o: word): nat {
    if Place(parts, o) <= cur then (cur + 1) % 256 else cur
  }

  function IndexAfterDelete(parts: seq<PartInfo>, cur: nat, n: nat): nat
    requires cur < |parts| && n < |parts|
  {
    if n == cur then 0
    else if parts[n].info.offset <= parts[cur].info.offset then (cur + 255) % 256
    else cur
  }

  /** After an insertion the adjusted index names the partition it named before, unless the
      8-bit index wraps. */
  lemma InsertIndex(parts: seq<PartInfo>, part: PartInfo, cur: nat)
    requires Sorted(parts) && Distinct(parts) && part !in parts && cur < |parts| && cur < 256
    ensures var k, c := Place(parts, part.info.offset), IndexAfterInsert(parts, cur, part.info.offset);
            var parts' := Placed(parts, part);
      && c < |parts'|
      && (parts'[c] == parts[cur] <==> !(k <= cur && cur == 255))
  {
    var k, parts' := Place(parts, part.info.offset), Placed(parts, part);
    assert part != parts[cur] && (cur > 0 ==> parts[0] != parts[cur]);
    PlacedAt(parts, part, cur);
    PlacedAt(parts, part, 0);
    hide *;
    Shifted(parts, part, parts', k, cur);
    assert IndexAfterInsert(parts, cur, part.info.offset) == if k <= cur then (cur + 1) % 256 else cur by {
      IndexAfterInsertIs(parts, cur, part.info.offset);
    }
  }

  lemma IndexAfterInsertIs(parts: seq<PartInfo>, cur: nat, o: word)
    ensures IndexAfterInsert(parts, cur, o) == if Place(parts, o) <= cur then (cur + 1) % 256 else cur
  {
  }

  lemma Shifted(parts: seq<PartInfo>, part: PartInfo, parts': seq<PartInfo>, k: nat, cur: nat)
    requires cur < |parts| && cur < 256 && |parts'| == |parts| + 1 && k < |parts'| && parts'[k] == part
    requires part != parts[cur] && (cur > 0 ==> parts[0] != parts[cur])
    requires parts'[if cur < k then cur else cur + 1] == parts[cur]
    requires parts'[if 0 < k then 0 else 1] == parts[0]
    ensures var c := if k <= cur then (cur + 1) % 256 else cur;
            c < |parts'| && (parts'[c] == parts[cur] <==> !(k <= cur && cur == 255))
  {
  }

  lemma PlacedAt(parts: seq<PartInfo>, part: PartInfo, n: nat)
    requires n < |parts|
    ensures var k, parts' := Place(parts, part.info.offset), Placed(parts, part);
      && |parts'| == |parts| + 1 && parts'[k] == part
      && parts'[if n < k then n else n + 1] == parts[n]
  {
  }

  /** The n-th partition stands behind the current one at the same offset. */
  ghost predicate Behind(parts: seq<PartInfo>, cur: nat, n: nat)
    requires cur < |parts| && n < |parts|
  {
    n > cur && parts[n].info.offset == parts[cur].info.offset
  }

  /** After the deletion of another partition the adjusted index names the one it named before if
      and only if the deleted one does not stand behind it at the same offset; in that case it is one
      too low, and out of range when it was 0 (and fewer than 256 partitions remain). */
  lemma DeleteIndex(parts: seq<PartInfo>, cur: nat, n: nat)
    requires Sorted(parts) && Distinct(parts) && cur < |parts| && cur < 256 && n < |parts|
    ensures var c, parts' := IndexAfterDelete(parts, cur, n), parts[..n] + parts[n + 1..];
      && (|parts| > 1 ==> (c < |parts'| <==> !(Behind(parts, cur, n) && cur == 0 && |parts'| < 256)))
      && (c < |parts'| && n != cur ==> (parts'[c] == parts[cur] <==> !Behind(parts, cur, n)))
  {
    var c, parts' := IndexAfterDelete(parts, cur, n), parts[..n] + parts[n + 1..];
    assert forall j :: 0 <= j < |parts'| ==> parts'[j] == parts[if j < n then j else j + 1];
    if n < cur {
      assert parts[n].info.offset <= parts[cur].info.offset;
      assert c == cur - 1;
    } else {
      assert parts[cur].info.offset <= parts[n].info.offset;
    }
  }
}
