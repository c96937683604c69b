/** The linked lists of RSSI_list.c on the heap, with `malloc` and `free` as moves into and out of
    ghost sets of live nodes. The fields of a node are read and written, and the node freed, only
    through members that require it to be live. */
module RssiList {
  import opened Basics
  import opened RssiModel

  class RssiNode {
    var date: Timeval
    var value: int
    var next: RssiNode?
    ghost const owner: DeviceNode
    ghost const serial: nat  // how many samples the owner was given before
    ghost const id: nat      // how many samples were issued before

    constructor (value: int, date: Timeval, ghost owner: DeviceNode, ghost serial: nat, ghost id: nat)
      ensures this.value == value && this.date == date && next == null
      ensures this.owner == owner && this.serial == serial && this.id == id
    {
      this.value, this.date, next := value, date, null;
      this.owner, this.serial, this.id := owner, serial, id;
    }
  }

  /** Marks the positions of a sample list that a proof looks at. */
  ghost predicate At(j: int) { true }

  function NextSample(s: RssiNode, ghost live: set<RssiNode>): RssiNode?
    requires s in live
    reads s
  {
    s.next
  }

  method SetNextSample(s: RssiNode, next: RssiNode, ghost live: set<RssiNode>)
    requires s in live
    modifies s`next
    ensures s.next == next
  {
    s.next := next;
  }

  function Reading(s: RssiNode, ghost live: set<RssiNode>): Sample
    requires s in live
    reads s
  {
    Sample(s.date, s.value)
  }

  ghost function Free<T>(node: T, live: set<T>): set<T>
    requires node in live
  {
    live - {node}
  }

  class DeviceNode {
    const mac: Mac
    var rssiList: RssiNode?
    var next: DeviceNode?
    ghost const rank: nat            // position in the device list
    ghost var spine: seq<RssiNode>   // the sample list
    ghost var dropped: nat           // samples removed so far

    constructor (mac: Mac, ghost rank: nat)
      ensures this.mac == mac && rssiList == null && next == null
      ensures this.rank == rank && spine == [] && dropped == 0
    {
      this.mac, rssiList, next, this.rank, spine, dropped := mac, null, null, rank, [], 0;
    }

    /** The sample list runs through `spine` and carries `window`; consecutive serial numbers
        make it acyclic. */
    ghost predicate Holds(window: seq<Sample>)
      reads this`rssiList, this`spine, this`dropped, spine
    {
      && |spine| == |window|
      && rssiList == (if spine == [] then null else spine[0])
      && (forall j {:trigger At(j)} :: At(j) && 0 <= j < |spine| ==>
            && spine[j].next == (if j + 1 < |spine| then spine[j + 1] else null)
            && Sample(spine[j].date, spine[j].value) == window[j]
            && spine[j].serial == dropped + j)
    }

    lemma {:induction false} Acyclic(window: seq<Sample>, j: nat)
      requires Holds(window) && j < |spine|
      ensures spine[j] !in spine[..j] && spine[j] !in spine[j + 1..]
    {
      forall k | 0 <= k < |spine| && k != j ensures spine[k] != spine[j] {
        assert At(j) && At(k);
      }
    }

    lemma {:induction false} SpineSize(window: seq<Sample>)
      requires Holds(window)
      ensures |Elements(spine)| == |window|
    {
      DistinctSize(window, |spine|);
      assert spine[..|spine|] == spine;
    }

    lemma {:induction false} DistinctSize(window: seq<Sample>, n: nat)
      requires Holds(window) && n <= |spine|
      ensures |Elements(spine[..n])| == n
    {
      if n > 0 {
        DistinctSize(window, n - 1);
        Acyclic(window, n - 1);
        assert Elements(spine[..n]) == Elements(spine[..n - 1]) + {spine[n - 1]};
      }
    }

    /** Every listed sample is live and belongs to this device and so to no other. */
    ghost predicate Owns(live: set<RssiNode>)
      reads this`spine
    {
      forall s :: s in spine ==> s in live && s.owner == this
    }

    /** Nothing but this device's own list has changed. */
    twostate predicate OthersKept(devices: set<DeviceNode>, samples: set<RssiNode>)
      reads this, devices, samples
    {
      && unchanged(this`next)
      && (forall d :: d in devices && d != this ==> unchanged(d))
      && (forall s :: s in samples && s.owner != this ==> unchanged(s))
    }

    twostate predicate Untouched()
      reads this, spine
    {
      && unchanged(this`rssiList) && unchanged(this`spine) && unchanged(this`dropped)
      && (forall s :: s in spine ==> unchanged(s))
    }

    twostate lemma KeepsHolding(new window: seq<Sample>)
      requires old(Holds(window)) && Untouched()
      ensures Holds(window)
    {
      assert forall j :: 0 <= j < |spine| ==> spine[j] in spine;
    }

    function FirstSample(ghost devices: set<DeviceNode>): RssiNode?
      requires this in devices
      reads this`rssiList
    {
      rssiList
    }

    method SetFirstSample(s: RssiNode?, ghost devices: set<DeviceNode>)
      requires this in devices
      modifies this`rssiList
      ensures rssiList == s
    {
      rssiList := s;
    }

    /** The walk to the end of a sample list that is not empty. */
    method LastSample(ghost devices: set<DeviceNode>, ghost live: set<RssiNode>, ghost window: seq<Sample>)
      returns (s: RssiNode)
      requires this in devices && Holds(window) && Owns(live) && rssiList != null
      ensures spine != [] && s == Last(spine)
    {
      s := FirstSample(devices);
      ghost var j: nat := 0;
      while NextSample(s, live) != null
        invariant j < |spine| && s == spine[j] && At(j)
        decreases |spine| - j
      {
        s := NextSample(s, live);
        j := j + 1;
      }
    }

    method AddRssiSample(value: int, now: Timeval, ghost id: nat, ghost devices: set<DeviceNode>,
                         ghost live: set<RssiNode>, ghost window: seq<Sample>)
      returns (ghost n: RssiNode)
      requires this in devices && Holds(window) && Owns(live)
      modifies this`rssiList, this`spine, spine`next
      ensures fresh(n) && n.owner == this && n.id == id && spine == old(spine) + [n]
      ensures Holds(window + [Sample(now, value)])
    {
      var m: RssiNode;
      if FirstSample(devices) == null {
        m := new RssiNode(value, now, this, dropped + |spine|, id);
        SetFirstSample(m, devices);
      } else {
        var s := LastSample(devices, live, window);
        m := new RssiNode(value, now, this, dropped + |spine|, id);
        SetNextSample(s, m, live);
      }
      assert At(|spine| - 1);
      spine := spine + [m];
      n := m;
    }

    /** Unlinks and frees the first sample. */
    method FreeHead(ghost devices: set<DeviceNode>, ghost live: set<RssiNode>, ghost window: seq<Sample>)
      returns (ghost left: set<RssiNode>)
      requires this in devices && Holds(window) && Owns(live) && rssiList != null
      modifies this`rssiList, this`spine, this`dropped
      ensures old(spine) != [] && spine == old(spine)[1..] && left == live - {old(spine)[0]}
      ensures Holds(window[1..]) && Owns(left)
    {
      assert At(0);
      Acyclic(window, 0);
      var s := FirstSample(devices);
      SetFirstSample(NextSample(s, live), devices);
      left := Free(s, live);
      spine, dropped := spine[1..], dropped + 1;
      forall j | 0 <= j < |spine|
        ensures spine[j].next == if j + 1 < |spine| then spine[j + 1] else null
        ensures Sample(spine[j].date, spine[j].value) == window[1..][j]
        ensures spine[j].serial == dropped + j
      {
        assert At(j + 1);
      }
    }

    /** Frees samples from the head while they are outdated. */
    method DeleteOutdated(now: Timeval, ghost devices: set<DeviceNode>,
                          ghost live: set<RssiNode>, ghost window: seq<Sample>)
      returns (ghost left: set<RssiNode>)
      requires this in devices && Holds(window) && Owns(live)
      modifies this`rssiList, this`spine, this`dropped
      ensures Holds(DropOutdated(window, now)) && Owns(left)
      ensures left <= live
      ensures forall s :: s in live && s !in left ==> s.owner == this
      ensures forall s :: s in old(spine) && s in left ==> s in spine
    {
      left := live;
      ghost var w := window;
      while FirstSample(devices) != null && Outdated(now, Reading(FirstSample(devices), left).date)
        invariant Holds(w) && Owns(left) && left <= live
        invariant DropOutdated(w, now) == DropOutdated(window, now)
        invariant forall s :: s in live && s !in left ==> s.owner == this
        invariant forall s :: s in old(spine) && s in left ==> s in spine
        decreases |spine|
      {
        assert At(0);
        left := FreeHead(devices, left, w);
        w := w[1..];
      }
      assert At(0);
    }

    /** Frees every sample and leaves the pointer to the first one behind. */
    method ClearRssiList(ghost devices: set<DeviceNode>, ghost live: set<RssiNode>, ghost window: seq<Sample>)
      returns (ghost left: set<RssiNode>)
      requires this in devices && Holds(window) && Owns(live)
      ensures left <= live
      ensures forall s :: s in live ==> (s in left <==> s !in spine)
    {
      left := live;
      var s := FirstSample(devices);
      ghost var j: nat := 0;
      while s != null
        invariant j <= |spine| && s == if j < |spine| then spine[j] else null
        invariant left <= live
        invariant forall s :: s in live ==>
          (s in left <==> s !in spine[..j])
        decreases |spine| - j
      {
        assert At(j);
        Acyclic(window, j);
        var save := NextSample(s, left);
        left := Free(s, left);
        s, j := save, j + 1;
      }
    }

    /** Sum and number of the samples. */
    method Total(ghost devices: set<DeviceNode>, ghost live: set<RssiNode>, ghost window: seq<Sample>)
      returns (sum: int, count: nat)
      requires this in devices && Holds(window) && Owns(live)
      ensures sum == Sum(window) && count == |window|
    {
      sum, count := 0, 0;
      var s := FirstSample(devices);
      while s != null
        invariant count <= |spine| && s == if count < |spine| then spine[count] else null
        invariant sum == Sum(window[..count])
        decreases |spine| - count
      {
        assert At(count);
        sum := sum + Reading(s, live).value;
        assert Front(window[..count + 1]) == window[..count];
        count := count + 1;
        s := NextSample(s, live);
      }
      assert window[..count] == window;
    }
  }

  ghost function Elements<T>(s: seq<T>): set<T> {
    set x | x in s
  }

  ghost function PurgeFirst(t: Table, n: nat, now: Timeval): (r: Table)
    ensures n == 0 ==> r == t
    ensures n == |t| ==> r == Purge(t, now)
  {
    seq(|t|, i requires 0 <= i < |t| =>
      if i < n then t[i].(window := DropOutdated(t[i].window, now)) else t[i])
  }

  lemma {:induction false} PurgeNext(t: Table, n: nat, now: Timeval)
    requires n < |t|
    ensures var r := PurgeFirst(t, n, now);
            r[n := r[n].(window := DropOutdated(r[n].window, now))] == PurgeFirst(t, n + 1, now)
  {
  }

  class DeviceTable {
    var head: DeviceNode?
    ghost var nodes: seq<DeviceNode>
    ghost var devices: set<DeviceNode>  // live device nodes
    ghost var samples: set<RssiNode>    // live sample nodes
    ghost var freed: set<RssiNode>      // sample nodes given back
    ghost var issued: seq<RssiNode>  // sample nodes ever allocated, in order
    ghost var contents: Table

    /** The device list runs through exactly the live device nodes, without a cycle. */
    ghost predicate Linked()
      reads this, devices
    {
      && head == (if nodes == [] then null else nodes[0])
      && (forall i :: 0 <= i < |nodes| ==> nodes[i] in devices && nodes[i].rank == i)
      && (forall i {:trigger nodes[i].next} :: 0 <= i < |nodes| ==>
            nodes[i].next == if i + 1 < |nodes| then nodes[i + 1] else null)
      && (forall d :: d in devices ==> d.rank < |nodes| && nodes[d.rank] == d)
    }

    /** In addition the sample lists carry `contents`, and the live samples are exactly the
        listed ones. */
    ghost predicate Valid()
      reads this, devices, samples
    {
      && Linked()
      && |nodes| == |contents|
      && (forall i :: 0 <= i < |nodes| ==>
            nodes[i].mac == contents[i].mac && nodes[i].Owns(samples) && nodes[i].Holds(contents[i].window))
      && (forall s :: s in samples ==> s.owner in devices && s in s.owner.spine)
      && Accounted()
    }

    /** Every sample node ever allocated is either live or freed, and never both. */
    ghost predicate Accounted()
      reads this
    {
      && samples !! freed
      && (forall i :: 0 <= i < |issued| ==>
            issued[i].id == i && (issued[i] in samples || issued[i] in freed))
      && (forall s :: s in samples ==> s.id < |issued| && issued[s.id] == s)
      && (forall s :: s in freed ==> s.id < |issued| && issued[s.id] == s)
    }

    constructor ()
      ensures Valid() && contents == [] && issued == []
    {
      head, nodes, devices, samples, freed, issued, contents := null, [], {}, {}, {}, [], [];
    }

    function NextDevice(d: DeviceNode): DeviceNode?
      requires d in devices
      reads this, d
    {
      d.next
    }

    method SetNextDevice(d: DeviceNode, next: DeviceNode)
      requires d in devices
      modifies d`next
      ensures d.next == next
    {
      d.next := next;
    }

    function MacOf(d: DeviceNode): Mac
      requires d in devices
      reads this
    {
      d.mac
    }

    method IsKnown(mac: Mac) returns (d: DeviceNode?)
      requires Valid()
      ensures match Lookup(contents, mac)
              case None => d == null
              case Some(k) => d == nodes[k]
    {
      d := head;
      ghost var i: nat := 0;
      while d != null && MacOf(d) != mac
        invariant i <= |nodes| && d == if i < |nodes| then nodes[i] else null
        invariant forall j :: 0 <= j < i ==> contents[j].mac != mac
        decreases |nodes| - i
      {
        d := NextDevice(d);
        i := i + 1;
      }
    }

    /** The walk to the end of a device list that is not empty. */
    method LastDevice() returns (d: DeviceNode)
      requires Linked() && head != null
      ensures nodes != [] && d == Last(nodes)
    {
      d := head;
      ghost var i: nat := 0;
      while NextDevice(d) != null
        invariant i < |nodes| && d == nodes[i]
        decreases |nodes| - i
      {
        d := NextDevice(d);
        i := i + 1;
      }
    }

    /** Appends an empty device, but hands back the previous last one if there is one. */
    method AddDevice(mac: Mac) returns (d: DeviceNode, ghost n: DeviceNode)
      requires Linked()
      modifies this`head, this`nodes, this`devices, nodes`next
      ensures Linked() && nodes == old(nodes) + [n] && devices == old(devices) + {n}
      ensures fresh(n) && n.mac == mac && n.Holds([])
      ensures d == if old(nodes) == [] then n else Last(old(nodes))
    {
      var m: DeviceNode;
      if head == null {
        m := new DeviceNode(mac, 0);
        d, head := m, m;
      } else {
        d := LastDevice();
        m := new DeviceNode(mac, |nodes|);
        SetNextDevice(d, m);
      }
      n := m;
      nodes, devices := nodes + [n], devices + {n};
    }

    method ListNew(mac: Mac) returns (d: DeviceNode)
      requires Valid()
      modifies this`head, this`nodes, this`devices, this`contents, nodes`next
      ensures Valid() && contents == RssiModel.AddDevice(old(contents), mac).0
      ensures d == nodes[RssiModel.AddDevice(old(contents), mac).1]
      ensures old(nodes) <= nodes && fresh(devices - old(devices))
    {
      ghost var n: DeviceNode;
      d, n := AddDevice(mac);
      contents := contents + [Device(mac, [])];
      DeviceAdded(n);
    }

    /** The device a sample from this address is stored in, listing the address if it is new. */
    method Admit(mac: Mac) returns (d: DeviceNode)
      requires Valid()
      modifies this`head, this`nodes, this`devices, this`contents, nodes`next
      ensures Valid() && contents == RssiModel.Admit(old(contents), mac).0
      ensures d == nodes[RssiModel.Admit(old(contents), mac).1]
      ensures old(nodes) <= nodes && fresh(devices - old(devices))
    {
      var known := IsKnown(mac);
      if known != null {
        d := known;
      } else {
        d := ListNew(mac);
      }
    }

    twostate lemma DeviceAdded(new n: DeviceNode)
      requires old(Valid()) && Linked() && nodes == old(nodes) + [n] && devices == old(devices) + {n}
      requires contents == old(contents) + [Device(n.mac, [])] && n.Holds([])
      requires unchanged(this`samples) && unchanged(this`freed) && unchanged(this`issued)
      requires forall d: DeviceNode :: d in old(devices) ==> d.Untouched()
      ensures Valid()
    {
      forall i | 0 <= i < |old(nodes)| ensures nodes[i].Holds(contents[i].window) {
        assert nodes[i] in old(devices);
        nodes[i].KeepsHolding(contents[i].window);
      }
      forall s | s in samples ensures s.owner in devices && s in s.owner.spine {
        assert s.owner.Untouched();
      }
    }

    /** Rebuilding the sample list of one device leaves the table valid. */
    twostate lemma ListRebuilt(d: DeviceNode, new window: seq<Sample>)
      requires old(Valid()) && d in old(devices) && d.OthersKept(old(devices), old(samples))
      requires unchanged(this`head) && unchanged(this`nodes) && unchanged(this`devices)
      requires |contents| == |nodes| && contents == old(contents)[d.rank := Device(d.mac, window)]
      requires d.Holds(window) && d.Owns(samples) && Accounted()
      requires forall s :: s in samples ==> s in old(samples) || s in d.spine
      requires forall s :: s in old(d.spine) && s in samples ==> s in d.spine
      requires forall s :: s in old(samples) && s.owner != d ==> s in samples
      ensures Valid()
    {
      forall i | 0 <= i < |nodes| && i != d.rank
        ensures nodes[i].Holds(contents[i].window) && nodes[i].Owns(samples)
      {
        assert nodes[i].Owns(old(samples)) && nodes[i].Untouched();
        nodes[i].KeepsHolding(contents[i].window);
      }
    }

    method AddRssiSample(d: DeviceNode, value: int, now: Timeval, ghost k: nat)
      requires Valid() && k < |nodes| && d == nodes[k]
      modifies this`samples, this`issued, this`contents, d`rssiList, d`spine, d.spine`next
      ensures Valid() && contents == AddSample(old(contents), k, Sample(now, value))
      ensures fresh(samples - old(samples)) && |issued| == |old(issued)| + 1
    {
      ghost var n := d.AddRssiSample(value, now, |issued|, devices, samples, contents[k].window);
      samples, issued := samples + {n}, issued + [n];
      contents := AddSample(contents, k, Sample(now, value));
      ListRebuilt(d, contents[k].window);
    }

    method DeleteOutdated(d: DeviceNode, now: Timeval, ghost k: nat)
      requires Valid() && k < |nodes| && d == nodes[k]
      modifies this`samples, this`freed, this`contents, d`rssiList, d`spine, d`dropped
      ensures Valid()
      ensures contents == old(contents)[k := old(contents)[k].(window := DropOutdated(old(contents)[k].window, now))]
      ensures samples <= old(samples) && samples + freed == old(samples + freed)
    {
      ghost var window := contents[k].window;
      ghost var left := d.DeleteOutdated(now, devices, samples, window);
      samples, freed := left, freed + (samples - left);
      contents := contents[k := contents[k].(window := DropOutdated(window, now))];
      ListRebuilt(d, contents[k].window);
    }

    /** Expires samples of every device against one clock reading. */
    method DeleteOutdate(now: Timeval)
      requires Valid()
      modifies this`samples, this`freed, this`contents, nodes`rssiList, nodes`spine, nodes`dropped
      ensures Valid() && contents == Purge(old(contents), now)
      ensures samples <= old(samples) && samples + freed == old(samples + freed)
    {
      var d := head;
      ghost var i: nat := 0;
      while d != null
        invariant Valid() && i <= |nodes| && d == if i < |nodes| then nodes[i] else null
        invariant contents == PurgeFirst(old(contents), i, now)
        invariant samples <= old(samples) && samples + freed == old(samples + freed)
        decreases |nodes| - i
      {
        PurgeNext(old(contents), i, now);
        assert contents[i] == old(contents)[i];
        DeleteOutdated(d, now, i);
        d := NextDevice(d);
        i := i + 1;
      }
    }

    /** Looks up or lists the sender and appends the sample to the device handed back. */
    method Store(mac: Mac, sample: Sample)
      requires Valid()
      modifies this, devices, samples
      ensures Valid() && old(nodes) <= nodes
      ensures contents == var (t, k) := RssiModel.Admit(old(contents), mac); AddSample(t, k, sample)
      ensures |issued| == |old(issued)| + 1
      ensures fresh(devices - old(devices)) && fresh(samples - old(samples))
    {
      ghost var k := RssiModel.Admit(contents, mac).1;
      var d := Admit(mac);
      assert d in devices && d.Owns(samples);
      AddRssiSample(d, sample.value, sample.date, k);
    }

    /** One turn of the capture loop. Devices are only ever appended, and every accepted frame
        allocates one sample. */
    method Ingest(f: Frame)
      requires Valid()
      modifies this, devices, samples
      ensures Valid() && contents == Step(old(contents), f) && old(nodes) <= nodes
      ensures |issued| == |old(issued)| + if f.Accepted() then 1 else 0
      ensures fresh(devices - old(devices)) && fresh(samples - old(samples))
    {
      if f.Accepted() {
        Store(f.source, f.Reading());
        assert forall d :: d in nodes ==> d in devices;
        DeleteOutdate(f.purgedAt);
      }
    }

    /** The capture loop over any finite run of frames, from an empty table: the heap holds what
        the value model computes, and what was issued is either listed or freed. */
    method Capture(frames: seq<Frame>)
      requires Valid() && contents == [] && issued == []
      modifies this, devices, samples
      ensures Valid() && contents == Run(frames)
      ensures Listed(contents, Macs(frames))
      ensures ClockOk(frames) ==> Describes(contents, frames)
      ensures |freed| == AcceptedCount(frames) - Kept(Run(frames))
    {
      var i := 0;
      while i < |frames|
        invariant 0 <= i <= |frames| && Valid() && contents == Run(frames[..i])
        invariant |issued| == AcceptedCount(frames[..i])
        invariant fresh(devices - old(devices)) && fresh(samples - old(samples))
      {
        Ingest(frames[i]);
        i := i + 1;
        assert Front(frames[..i]) == frames[..i - 1];
      }
      assert frames[..i] == frames;
      RunListed(frames);
      if ClockOk(frames) {
        RunDescribed(frames);
      }
      NothingLeaks();
    }

    lemma {:induction false} NothingLeaks()
      requires Valid()
      ensures |freed| == |issued| - Kept(contents)
    {
      SamplesListedOnce();
      SamplesAccounted(|issued|);
      assert issued[..|issued|] == issued;
      assert Elements(issued) == samples + freed;
    }

    lemma {:induction false} SamplesAccounted(n: nat)
      requires Accounted() && n <= |issued|
      ensures |Elements(issued[..n])| == n
    {
      if n > 0 {
        SamplesAccounted(n - 1);
        assert Elements(issued[..n]) == Elements(issued[..n - 1]) + {issued[n - 1]};
        assert forall i :: 0 <= i < n - 1 ==> issued[i].id == i;
      }
    }

    /** The live samples number as many as the table holds. */
    lemma {:induction false} SamplesListedOnce()
      requires Valid()
      ensures |samples| == Kept(contents)
    {
      SamplesOfFirst(|nodes|);
      assert samples == SamplesBefore(|nodes|);
      assert contents[..|nodes|] == contents;
    }

    ghost function SamplesBefore(n: nat): set<RssiNode>
      reads this
    {
      set s | s in samples && s.owner.rank < n
    }

    lemma {:induction false} SamplesOfFirst(n: nat)
      requires Valid() && n <= |nodes|
      ensures |SamplesBefore(n)| == Kept(contents[..n])
    {
      if n == 0 {
        assert SamplesBefore(0) == {};
      } else {
        SamplesOfFirst(n - 1);
        var d := nodes[n - 1];
        var own := Elements(d.spine);
        SamplesOf(n - 1, own);
        d.SpineSize(contents[n - 1].window);
        assert Front(contents[..n]) == contents[..n - 1];
      }
    }

    lemma {:induction false} SamplesOf(k: nat, own: set<RssiNode>)
      requires Valid() && k < |nodes| && own == Elements(nodes[k].spine)
      ensures SamplesBefore(k + 1) == SamplesBefore(k) + own && SamplesBefore(k) !! own
    {
      assert nodes[k].Owns(samples) && nodes[k].rank == k;
      forall s | s in SamplesBefore(k + 1) && s !in SamplesBefore(k) ensures s in own {
        assert s.owner == nodes[k];
      }
    }

    /** The average over a NULL table, an unlisted address, or the samples of a device. */
    static method Average(t: DeviceTable?, mac: Mac) returns (level: Level)
      requires t != null ==> t.Valid()
      ensures level == AverageOf(if t == null then None else Some(t.contents), mac)
    {
      if t == null {
        return UNKNOWN;
      }
      var d := t.IsKnown(mac);
      if d == null {
        return UNKNOWN;
      }
      ghost var w := t.contents[Lookup(t.contents, mac).value].window;
      var sum, count := d.Total(t.devices, t.samples, w);
      level := if count == 0 then NotANumber else Dbm(sum as real / count as real);
    }

    /** Frees every sample and every device once. The head pointer is left behind. */
    method ClearDeviceList()
      requires Valid()
      modifies this`devices, this`samples, this`freed
      ensures devices == {} && samples == {} && freed == old(samples + freed)
    {
      var d := head;
      ghost var i: nat := 0;
      while d != null
        invariant i <= |nodes| && d == if i < |nodes| then nodes[i] else null
        invariant devices <= old(devices) && forall e :: e in old(devices) ==> (e in devices <==> e.rank >= i)
        invariant samples <= old(samples) && forall s :: s in old(samples) ==> (s in samples <==> s.owner.rank >= i)
        invariant freed == old(samples + freed) - samples
        decreases |nodes| - i
      {
        ghost var left := d.ClearRssiList(devices, samples, contents[i].window);
        samples, freed := left, freed + (samples - left);
        var save := NextDevice(d);
        devices := Free(d, devices);
        d, i := save, i + 1;
      }
    }
  }
}
