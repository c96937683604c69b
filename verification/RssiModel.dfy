/** The device table as a value, one capture step over it, and what every run of the capture
    loop leaves in it. The heap version in RssiList is proved against these functions. */
module RssiModel {
  import opened Basics

  const MICROS := 1_000_000

  /** `struct timeval`; `usec` lies in [0, MICROS). */
  datatype Timeval = Timeval(sec: int, usec: int) {
    ghost predicate Valid() { 0 <= usec < MICROS }

    function Micros(): int { sec * MICROS + usec }
  }

  /** Six bytes, compared with `memcmp`. */
  type Mac = m: seq<int> | |m| == 6 && forall i :: 0 <= i < 6 ==> 0 <= m[i] < 256
    witness [0, 0, 0, 0, 0, 0]

  datatype Sample = Sample(date: Timeval, value: int)

  datatype Device = Device(mac: Mac, window: seq<Sample>)

  type Table = seq<Device>

  /** One captured packet, with the two clock readings the loop takes if it accepts it. */
  datatype Frame = Frame(msgcode: bv32, frameControl: bv16, source: Mac, rssi: int,
                         sampledAt: Timeval, purgedAt: Timeval)
  {
    predicate Accepted() { msgcode == 0x41 && frameControl & 0xc0 == 0x80 }

    function Reading(): Sample { Sample(sampledAt, rssi) }
  }

  /** Accepted are the frames with message code 65 whose control field has bit 7 set and bit 6
      clear. */
  lemma {:induction false} AcceptedExactly(f: Frame)
    ensures f.Accepted() <==> f.msgcode == 65 && (f.frameControl >> 7) & 1 == 1 && (f.frameControl >> 6) & 1 == 0
  {
    MiddleBits(f.frameControl);
  }

  lemma {:induction false} MiddleBits(x: bv16)
    ensures x & 0xc0 == 0x80 <==> (x >> 7) & 1 == 1 && (x >> 6) & 1 == 0
  {
    if x & 0xc0 == 0x80 {
      assert (x >> 7) & 1 == 1;
    }
  }

  // ---- Operations on the table ----

  /** Index of the first device with this address. */
  function Lookup(t: Table, mac: Mac): (r: Option<nat>)
    ensures r.Some? ==> r.value < |t| && t[r.value].mac == mac
    ensures r.Some? ==> forall i :: 0 <= i < r.value ==> t[i].mac != mac
    ensures r.None? <==> forall i :: 0 <= i < |t| ==> t[i].mac != mac
  {
    if t == [] then None
    else if t[0].mac == mac then Some(0)
    else match Lookup(t[1..], mac)
      case None => assert forall i :: 1 <= i < |t| ==> t[i] == t[1..][i - 1]; None
      case Some(k) => assert forall i :: 1 <= i <= k ==> t[i] == t[1..][i - 1]; Some(k + 1)
  }

  /** The table with an empty device appended, and the index of the node that is handed back:
      the only node of a table that was empty, otherwise the node before the new one. */
  function AddDevice(t: Table, mac: Mac): (r: (Table, nat))
    ensures r.1 < |r.0|
  {
    (t + [Device(mac, [])], if t == [] then 0 else |t| - 1)
  }

  function AddSample(t: Table, k: nat, s: Sample): Table
    requires k < |t|
  {
    t[k := t[k].(window := t[k].window + [s])]
  }

  predicate Outdated(now: Timeval, date: Timeval) { now.sec - date.sec > 1 }

  /** Expiry from the head only: it stops at the first sample that is not outdated. */
  function DropOutdated(w: seq<Sample>, now: Timeval): seq<Sample> {
    if w != [] && Outdated(now, w[0].date) then DropOutdated(w[1..], now) else w
  }

  function Purge(t: Table, now: Timeval): Table {
    seq(|t|, i requires 0 <= i < |t| => t[i].(window := DropOutdated(t[i].window, now)))
  }

  /** The table once the sender is listed, and the index of the device the sample goes to. */
  function Admit(t: Table, mac: Mac): (r: (Table, nat))
    ensures r.1 < |r.0|
  {
    match Lookup(t, mac)
    case Some(k) => (t, k)
    case None => AddDevice(t, mac)
  }

  /** The body of the capture loop. */
  function Step(t: Table, f: Frame): Table {
    if !f.Accepted() then t
    else
      var (t1, k) := Admit(t, f.source);
      Purge(AddSample(t1, k, f.Reading()), f.purgedAt)
  }

  function Run(fs: seq<Frame>): Table {
    if fs == [] then [] else Step(Run(Front(fs)), Last(fs))
  }

  // ---- What a run should leave, read off the list of frames ----

  /** Addresses in order of first appearance. */
  function Macs(fs: seq<Frame>): (ms: seq<Mac>) {
    if fs == [] then []
    else
      var ms := Macs(Front(fs));
      if Last(fs).Accepted() && Last(fs).source !in ms then ms + [Last(fs).source] else ms
  }

  predicate Introduces(fs: seq<Frame>)
    requires fs != []
  {
    Last(fs).Accepted() && Last(fs).source !in Macs(Front(fs))
  }

  /** All samples carried by accepted frames from this address, in arrival order. */
  function Owned(fs: seq<Frame>, mac: Mac): seq<Sample> {
    if fs == [] then []
    else Owned(Front(fs), mac) +
         if Last(fs).Accepted() && Last(fs).source == mac then [Last(fs).Reading()] else []
  }

  /** The last frame's sample goes to the device of its own address, unless the frame introduces
      that address: then it goes to the device that was last before, if there was one. */
  predicate SentTo(fs: seq<Frame>, i: nat)
    requires fs != []
  {
    var ms := Macs(Front(fs));
    Last(fs).Accepted() &&
    if Last(fs).source in ms then i < |ms| && ms[i] == Last(fs).source
    else i == if ms == [] then 0 else |ms| - 1
  }

  /** All samples ever appended to the i-th device, in arrival order. */
  function Sent(fs: seq<Frame>, i: nat): seq<Sample> {
    if fs == [] then []
    else Sent(Front(fs), i) + if SentTo(fs, i) then [Last(fs).Reading()] else []
  }

  /** When the table was last purged. */
  function Now(fs: seq<Frame>): Timeval {
    if fs == [] then Timeval(0, 0)
    else if Last(fs).Accepted() then Last(fs).purgedAt else Now(Front(fs))
  }

  /** The sample whose frame introduced the newest device. */
  function NewestFirst(fs: seq<Frame>): Sample
    requires Macs(fs) != []
  {
    if Introduces(fs) then Last(fs).Reading() else NewestFirst(Front(fs))
  }

  /** Keep every sample that is not outdated, wherever it stands. */
  function Retained(w: seq<Sample>, now: Timeval): seq<Sample> {
    if w == [] then []
    else Retained(Front(w), now) + if Outdated(now, Last(w).date) then [] else [Last(w)]
  }

  /** The readings `gettimeofday` returns to accepted frames never go back. */
  ghost predicate ClockOk(fs: seq<Frame>) {
    && (forall i :: 0 <= i < |fs| && fs[i].Accepted() ==>
          fs[i].sampledAt.Valid() && fs[i].purgedAt.Valid() &&
          fs[i].sampledAt.Micros() <= fs[i].purgedAt.Micros())
    && (forall i, j :: 0 <= i < j < |fs| && fs[i].Accepted() && fs[j].Accepted() ==>
          fs[i].purgedAt.Micros() <= fs[j].sampledAt.Micros())
  }

  // ---- Samples in clock order ----

  ghost predicate Ordered(w: seq<Sample>) {
    forall i, j :: 0 <= i < j < |w| ==> w[i].date.sec <= w[j].date.sec
  }

  ghost predicate UpTo(w: seq<Sample>, sec: int) {
    forall i :: 0 <= i < |w| ==> w[i].date.sec <= sec
  }

  lemma {:induction false} SecondsOrdered(a: Timeval, b: Timeval)
    requires a.Valid() && b.Valid() && a.Micros() <= b.Micros()
    ensures a.sec <= b.sec
  {
  }

  /** Membership in the filter, position-free. */
  lemma {:induction false} RetainedMembers(w: seq<Sample>, now: Timeval, s: Sample)
    ensures s in Retained(w, now) <==> s in w && !Outdated(now, s.date)
  {
    if w != [] {
      RetainedMembers(Front(w), now, s);
      assert s in w <==> s in Front(w) || s == Last(w);
    }
  }

  lemma {:induction false} RetainedAppend(w: seq<Sample>, s: Sample, now: Timeval)
    ensures Retained(w + [s], now) == Retained(w, now) + if Outdated(now, s.date) then [] else [s]
  {
    assert Front(w + [s]) == w;
  }

  /** Head-first form of the filter. */
  lemma {:induction false} RetainedHead(w: seq<Sample>, now: Timeval)
    requires w != []
    ensures Retained(w, now) ==
            (if Outdated(now, w[0].date) then [] else [w[0]]) + Retained(w[1..], now)
  {
    if |w| == 1 {
      assert Front(w) == [] && w[1..] == [];
    } else {
      RetainedHead(Front(w), now);
      assert Front(w)[1..] == Front(w[1..]);
    }
  }

  lemma {:induction false} NothingOutdated(w: seq<Sample>, now: Timeval)
    requires forall i :: 0 <= i < |w| ==> !Outdated(now, w[i].date)
    ensures Retained(w, now) == w
  {
    if w != [] {
      NothingOutdated(Front(w), now);
      FrontThenLast(w);
    }
  }

  lemma {:induction false} AllOutdated(w: seq<Sample>, now: Timeval)
    requires forall i :: 0 <= i < |w| ==> Outdated(now, w[i].date)
    ensures Retained(w, now) == []
  {
    if w != [] {
      AllOutdated(Front(w), now);
    }
  }

  /** On samples in clock order, expiring the head is as good as filtering the whole list. */
  lemma {:induction false} HeadExpiryIsFilter(w: seq<Sample>, now: Timeval)
    requires Ordered(w)
    ensures DropOutdated(w, now) == Retained(w, now)
  {
    if w != [] {
      RetainedHead(w, now);
      if Outdated(now, w[0].date) {
        HeadExpiryIsFilter(w[1..], now);
      } else {
        assert forall i :: 1 <= i < |w| ==> w[0].date.sec <= w[i].date.sec;
        NothingOutdated(w, now);
      }
    }
  }

  lemma {:induction false} RetainedOrdered(w: seq<Sample>, now: Timeval, sec: int)
    requires Ordered(w) && UpTo(w, sec)
    ensures Ordered(Retained(w, now)) && UpTo(Retained(w, now), sec)
  {
    HeadExpiryIsFilter(w, now);
    if w != [] && Outdated(now, w[0].date) {
      HeadExpiryIsFilter(w[1..], now);
      RetainedOrdered(w[1..], now, sec);
    }
  }

  /** Filtering again later is the same as filtering once, later. */
  lemma {:induction false} RetainedTwice(w: seq<Sample>, now: Timeval, later: Timeval)
    requires now.sec <= later.sec
    ensures Retained(Retained(w, now), later) == Retained(w, later)
  {
    if w != [] {
      RetainedTwice(Front(w), now, later);
      var r := Retained(Front(w), now);
      if Outdated(now, Last(w).date) {
        assert Retained(w, now) == r;
      } else {
        RetainedAppend(r, Last(w), later);
      }
    }
  }

  function With(w: seq<Sample>, extra: Option<Sample>): seq<Sample> {
    match extra
    case None => w
    case Some(s) => w + [s]
  }

  /** One turn of the loop on one window: what was kept of `prior` at an earlier purge, with at
      most one sample added, becomes what is to be kept of the whole history now. */
  lemma {:induction false} HistoryExtended(prior: seq<Sample>, before: Timeval, extra: Option<Sample>, now: Timeval)
    requires Ordered(prior) && (prior == [] || before.sec <= now.sec)
    requires extra.None? || UpTo(prior, extra.value.date.sec)
    ensures DropOutdated(With(Retained(prior, before), extra), now) == Retained(With(prior, extra), now)
  {
    var w := Retained(prior, before);
    if prior != [] {
      RetainedTwice(prior, before, now);
    }
    match extra {
      case None =>
        RetainedOrdered(prior, before, if prior == [] then 0 else Last(prior).date.sec);
      case Some(s) =>
        RetainedOrdered(prior, before, s.date.sec);
        RetainedAppend(w, s, now);
        RetainedAppend(prior, s, now);
    }
    HeadExpiryIsFilter(With(w, extra), now);
  }

  // ---- Facts about the frame lists ----

  lemma {:induction false} ClockOkFront(fs: seq<Frame>)
    requires fs != [] && ClockOk(fs)
    ensures ClockOk(Front(fs))
  {
    assert forall i :: 0 <= i < |Front(fs)| ==> Front(fs)[i] == fs[i];
  }

  lemma {:induction false} MacsDistinct(fs: seq<Frame>)
    ensures forall i, j :: 0 <= i < j < |Macs(fs)| ==> Macs(fs)[i] != Macs(fs)[j]
  {
    if fs != [] {
      MacsDistinct(Front(fs));
    }
  }

  /** Devices are never removed or reordered. */
  lemma {:induction false} MacsOnlyGrow(fs: seq<Frame>, more: seq<Frame>)
    ensures Macs(fs) <= Macs(fs + more)
    decreases |more|
  {
    if more == [] {
      assert fs + more == fs;
    } else {
      assert Front(fs + more) == fs + Front(more);
      MacsOnlyGrow(fs, Front(more));
    }
  }

  lemma {:induction false} NoMacsNoSamples(fs: seq<Frame>, i: nat)
    requires i >= |Macs(fs)|
    ensures Sent(fs, i) == []
  {
    if fs != [] {
      NoMacsNoSamples(Front(fs), i);
    }
  }

  lemma {:induction false} StrangersOwnNothing(fs: seq<Frame>, mac: Mac)
    requires mac !in Macs(fs)
    ensures Owned(fs, mac) == []
  {
    if fs != [] {
      StrangersOwnNothing(Front(fs), mac);
    }
  }

  /** The last accepted frame of a prefix precedes what comes next. */
  lemma {:induction false} NowBefore(fs: seq<Frame>, k: nat)
    requires ClockOk(fs) && k < |fs| && fs[k].Accepted()
    ensures Macs(fs[..k]) != [] ==> Now(fs[..k]).sec <= fs[k].sampledAt.sec
    ensures fs[k].sampledAt.sec <= fs[k].purgedAt.sec
  {
    SecondsOrdered(fs[k].sampledAt, fs[k].purgedAt);
    NowBeforeFrom(fs, k, k);
  }

  lemma {:induction false} NowBeforeFrom(fs: seq<Frame>, j: nat, k: nat)
    requires ClockOk(fs) && j <= k < |fs| && fs[k].Accepted()
    ensures Macs(fs[..j]) != [] ==> Now(fs[..j]).sec <= fs[k].sampledAt.sec
    decreases j
  {
    if j > 0 {
      assert Front(fs[..j]) == fs[..j - 1] && Last(fs[..j]) == fs[j - 1];
      if fs[j - 1].Accepted() {
        SecondsOrdered(fs[j - 1].purgedAt, fs[k].sampledAt);
      } else {
        NowBeforeFrom(fs, j - 1, k);
      }
    }
  }

  lemma {:induction false} NowAdvances(fs: seq<Frame>)
    requires fs != [] && ClockOk(fs) && Last(fs).Accepted()
    ensures Macs(Front(fs)) != [] ==> Now(Front(fs)).sec <= Last(fs).sampledAt.sec
    ensures Last(fs).sampledAt.sec <= Now(fs).sec
  {
    NowBefore(fs, |fs| - 1);
    assert fs[..|fs| - 1] == Front(fs);
  }

  lemma {:induction false} OrderedWith(w: seq<Sample>, s: Sample, sec: int, now: int)
    requires Ordered(w) && UpTo(w, sec) && (w == [] || sec <= s.date.sec) && s.date.sec <= now
    ensures Ordered(w + [s]) && UpTo(w + [s], now)
  {
  }

  lemma {:induction false} SentOrdered(fs: seq<Frame>, i: nat)
    requires ClockOk(fs)
    ensures Ordered(Sent(fs, i)) && UpTo(Sent(fs, i), Now(fs).sec)
  {
    if fs != [] {
      var p := Front(fs);
      ClockOkFront(fs);
      SentOrdered(p, i);
      if Last(fs).Accepted() {
        NowAdvances(fs);
        if Macs(p) == [] {
          NoMacsNoSamples(p, i);
        }
        OrderedWith(Sent(p, i), Last(fs).Reading(), Now(p).sec, Now(fs).sec);
      }
      assert SentTo(fs, i) || Sent(fs, i) == Sent(p, i);
    }
  }

  lemma {:induction false} OwnedOrdered(fs: seq<Frame>, mac: Mac)
    requires ClockOk(fs)
    ensures Ordered(Owned(fs, mac)) && UpTo(Owned(fs, mac), Now(fs).sec)
  {
    if fs != [] {
      var p := Front(fs);
      ClockOkFront(fs);
      OwnedOrdered(p, mac);
      if Last(fs).Accepted() {
        NowAdvances(fs);
        if Macs(p) == [] {
          StrangersOwnNothing(p, mac);
        }
        OrderedWith(Owned(p, mac), Last(fs).Reading(), Now(p).sec, Now(fs).sec);
      }
      assert (Last(fs).Accepted() && Last(fs).source == mac) || Owned(fs, mac) == Owned(p, mac);
    }
  }

  // ---- Every run ----

  /** The table lists these addresses in this order. */
  ghost predicate Listed(t: Table, ms: seq<Mac>) {
    |t| == |ms| && forall i :: 0 <= i < |t| ==> t[i].mac == ms[i]
  }

  /** After every run, whatever the clock did, the table lists the addresses in order of first
      appearance. */
  lemma {:induction false} RunListed(fs: seq<Frame>)
    ensures Listed(Run(fs), Macs(fs))
  {
    if fs != [] {
      RunListed(Front(fs));
      if Last(fs).Accepted() {
        AdmitDescribed(Run(Front(fs)), fs);
      }
    }
  }

  /** No address is listed twice. */
  lemma {:induction false} AddressesDistinct(fs: seq<Frame>)
    ensures forall i, j :: 0 <= i < j < |Run(fs)| ==> Run(fs)[i].mac != Run(fs)[j].mac
  {
    RunListed(fs);
    MacsDistinct(fs);
  }

  /** Devices are never removed or reordered. */
  lemma {:induction false} DevicesStay(fs: seq<Frame>, more: seq<Frame>)
    ensures |Run(fs)| <= |Run(fs + more)|
    ensures forall i :: 0 <= i < |Run(fs)| ==> Run(fs + more)[i].mac == Run(fs)[i].mac
  {
    RunListed(fs);
    RunListed(fs + more);
    MacsOnlyGrow(fs, more);
    assert forall i :: 0 <= i < |Macs(fs)| ==> Macs(fs + more)[i] == Macs(fs)[i];
  }

  /** The i-th device was listed by the first accepted frame from its address, when there were
      i devices. */
  lemma {:induction false} ListedAtFirstFrame(fs: seq<Frame>, i: nat) returns (k: nat)
    requires i < |Run(fs)|
    ensures k < |fs| && fs[k].Accepted() && fs[k].source == Run(fs)[i].mac && |Run(fs[..k])| == i
    ensures forall j :: 0 <= j < k && fs[j].Accepted() ==> fs[j].source != Run(fs)[i].mac
  {
    RunListed(fs);
    k := FirstFrame(fs, i);
    RunListed(fs[..k]);
    forall j | 0 <= j < k && fs[j].Accepted() ensures fs[j].source != Macs(fs)[i] {
      assert fs[..k][j] == fs[j];
      SendersListed(fs[..k], j);
    }
  }

  lemma {:induction false} FirstFrame(fs: seq<Frame>, i: nat) returns (k: nat)
    requires i < |Macs(fs)|
    ensures k < |fs| && fs[k].Accepted() && fs[k].source == Macs(fs)[i]
    ensures |Macs(fs[..k])| == i && Macs(fs)[i] !in Macs(fs[..k])
  {
    var p := Front(fs);
    if i < |Macs(p)| {
      k := FirstFrame(p, i);
      assert fs[..k] == p[..k];
    } else {
      k := |p|;
    }
  }

  lemma {:induction false} SendersListed(fs: seq<Frame>, j: nat)
    requires j < |fs| && fs[j].Accepted()
    ensures fs[j].source in Macs(fs)
  {
    if j < |fs| - 1 {
      assert Front(fs)[j] == fs[j];
      SendersListed(Front(fs), j);
    }
  }

  /** Every accepted frame, whatever the clock did, has its level and the time it was taken
      appended to exactly one device, after which every device expires samples from its head and
      nothing else changes. */
  lemma {:induction false} Delivered(fs: seq<Frame>) returns (k: nat)
    requires fs != [] && Last(fs).Accepted()
    ensures k < |Macs(fs)| && forall i: nat :: SentTo(fs, i) <==> i == k
    ensures |Run(fs)| == |Macs(fs)|
    ensures forall i :: 0 <= i < |Run(fs)| ==>
              var before := if i < |Run(Front(fs))| then Run(Front(fs))[i].window else [];
              var extra := if i == k then Some(Sample(Last(fs).sampledAt, Last(fs).rssi)) else None;
              Run(fs)[i].window == DropOutdated(With(before, extra), Last(fs).purgedAt)
  {
    var t := Run(Front(fs));
    RunListed(Front(fs));
    AdmitDescribed(t, fs);
    k := Admit(t, Last(fs).source).1;
  }

  lemma {:induction false} OneReceiver(fs: seq<Frame>) returns (k: nat)
    requires fs != [] && Last(fs).Accepted()
    ensures k < |Macs(fs)| && forall i: nat :: SentTo(fs, i) <==> i == k
  {
    k := Delivered(fs);
  }

  ghost predicate Describes(t: Table, fs: seq<Frame>) {
    && Listed(t, Macs(fs))
    && forall i :: 0 <= i < |t| ==> t[i].window == Retained(Sent(fs, i), Now(fs))
  }

  /** After every run the table holds the addresses in order of first appearance, each with
      exactly the still valid ones among all samples ever appended to it: expiry from the head
      refines a filter of the whole history. */
  lemma {:induction false} RunDescribed(fs: seq<Frame>)
    requires ClockOk(fs)
    ensures Describes(Run(fs), fs)
  {
    if fs != [] {
      ClockOkFront(fs);
      RunDescribed(Front(fs));
      StepDescribed(fs);
    }
  }

  lemma {:induction false} LookupDescribed(t: Table, ms: seq<Mac>, mac: Mac)
    requires Listed(t, ms) && forall j, k :: 0 <= j < k < |ms| ==> ms[j] != ms[k]
    ensures Lookup(t, mac).Some? <==> mac in ms
    ensures Lookup(t, mac).Some? ==> forall i :: 0 <= i < |ms| ==> (ms[i] == mac <==> i == Lookup(t, mac).value)
  {
    assert forall i :: 0 <= i < |t| ==> t[i].mac == ms[i];
  }

  lemma {:induction false} AdmitDescribed(t: Table, fs: seq<Frame>)
    requires fs != [] && Last(fs).Accepted() && Listed(t, Macs(Front(fs)))
    ensures var (t1, k) := Admit(t, Last(fs).source);
            && Listed(t1, Macs(fs))
            && (forall i :: 0 <= i < |t1| ==> t1[i].window == if i < |t| then t[i].window else [])
            && (forall i: nat :: SentTo(fs, i) <==> i == k)
  {
    MacsDistinct(Front(fs));
    LookupDescribed(t, Macs(Front(fs)), Last(fs).source);
  }

  lemma {:induction false} StepDescribed(fs: seq<Frame>)
    requires fs != [] && ClockOk(fs) && Describes(Run(Front(fs)), Front(fs))
    ensures Describes(Run(fs), fs)
  {
    RunListed(fs);
    forall i | 0 <= i < |Run(fs)| ensures Run(fs)[i].window == Retained(Sent(fs, i), Now(fs)) {
      if Last(fs).Accepted() {
        WindowAfter(fs, i);
      } else {
        assert Sent(fs, i) == Sent(Front(fs), i);
      }
    }
  }

  lemma {:induction false} WindowAfter(fs: seq<Frame>, i: nat)
    requires fs != [] && ClockOk(fs) && Last(fs).Accepted() && i < |Run(fs)|
    requires Describes(Run(Front(fs)), Front(fs))
    ensures Run(fs)[i].window == Retained(Sent(fs, i), Now(fs))
  {
    var k := Delivered(fs);
    WindowDescribed(fs, i);
  }

  lemma {:induction false} WindowDescribed(fs: seq<Frame>, i: nat)
    requires fs != [] && ClockOk(fs) && Last(fs).Accepted()
    ensures var w := if i < |Macs(Front(fs))| then Retained(Sent(Front(fs), i), Now(Front(fs))) else [];
            var extra := if SentTo(fs, i) then Some(Last(fs).Reading()) else None;
            DropOutdated(With(w, extra), Now(fs)) == Retained(Sent(fs, i), Now(fs))
  {
    var p := Front(fs);
    var extra := if SentTo(fs, i) then Some(Last(fs).Reading()) else None;
    ClockOkFront(fs);
    NowAdvances(fs);
    SentOrdered(p, i);
    if i >= |Macs(p)| {
      NoMacsNoSamples(p, i);
    }
    HistoryExtended(Sent(p, i), Now(p), extra, Now(fs));
    assert Sent(fs, i) == With(Sent(p, i), extra);
  }

  /** The same in microseconds: what a device keeps arrived less than 2 s before the last purge,
      and what it has lost is more than 1 s old. */
  lemma {:induction false} WindowInMicroseconds(fs: seq<Frame>, i: nat, s: Sample)
    requires ClockOk(fs) && i < |Run(fs)| && s in Sent(fs, i)
    ensures s in Run(fs)[i].window ==> Now(fs).Micros() - s.date.Micros() < 2 * MICROS
    ensures s !in Run(fs)[i].window ==> Now(fs).Micros() - s.date.Micros() > MICROS
  {
    RunDescribed(fs);
    RetainedMembers(Sent(fs, i), Now(fs), s);
    SentValid(fs, i, s);
    NowValid(fs);
  }

  lemma {:induction false} SentValid(fs: seq<Frame>, i: nat, s: Sample)
    requires ClockOk(fs) && s in Sent(fs, i)
    ensures s.date.Valid()
  {
    ClockOkFront(fs);
    if s in Sent(Front(fs), i) {
      SentValid(Front(fs), i, s);
    }
  }

  lemma {:induction false} NowValid(fs: seq<Frame>)
    requires ClockOk(fs)
    ensures Now(fs).Valid()
  {
    if fs != [] {
      ClockOkFront(fs);
      NowValid(Front(fs));
    }
  }

  // ---- Whose samples are they? ----

  /** Every window holds exactly the still valid samples its own address sent. */
  ghost predicate Faithful(fs: seq<Frame>) {
    forall i :: 0 <= i < |Run(fs)| ==>
      Run(fs)[i].window == Retained(Owned(fs, Run(fs)[i].mac), Now(fs))
  }

  /** A table is not always faithful: with two frames from different addresses within a second,
      both samples are on the first device and the second device is empty. */
  lemma {:induction false} SecondAddressLosesItsSample(fs: seq<Frame>)
    requires ClockOk(fs) && |fs| == 2 && fs[0].Accepted() && fs[1].Accepted()
    requires fs[0].source != fs[1].source && fs[1].purgedAt.sec - fs[0].sampledAt.sec <= 1
    ensures Run(fs) == [Device(fs[0].source, [fs[0].Reading(), fs[1].Reading()]), Device(fs[1].source, [])]
    ensures !Faithful(fs)
  {
    TwoAddresses(fs);
    SecondsOrdered(fs[0].sampledAt, fs[0].purgedAt);
    SecondsOrdered(fs[0].purgedAt, fs[1].sampledAt);
    TwoAddressTable(fs);
    FaithfulExactly(fs);
  }

  lemma {:induction false} TwoAddressTable(fs: seq<Frame>)
    requires ClockOk(fs) && |fs| == 2 && fs[1].Accepted()
    requires fs[1].purgedAt.sec - 1 <= fs[0].sampledAt.sec <= fs[1].sampledAt.sec
    requires Macs(fs) == [fs[0].source, fs[1].source]
    requires Sent(fs, 0) == [fs[0].Reading(), fs[1].Reading()] && Sent(fs, 1) == []
    ensures Run(fs) == [Device(fs[0].source, Sent(fs, 0)), Device(fs[1].source, [])]
  {
    RunDescribed(fs);
    NothingOutdated(Sent(fs, 0), fs[1].purgedAt);
  }

  lemma {:induction false} OneFrame(fs: seq<Frame>)
    requires |fs| == 1 && fs[0].Accepted()
    ensures Macs(fs) == [fs[0].source]
    ensures Sent(fs, 0) == [fs[0].Reading()]
  {
    var e := Front(fs);
    assert Macs(e) == [] && Sent(e, 0) == [];
  }

  lemma {:induction false} TwoAddresses(fs: seq<Frame>)
    requires |fs| == 2 && fs[0].Accepted() && fs[1].Accepted() && fs[0].source != fs[1].source
    ensures Macs(fs) == [fs[0].source, fs[1].source]
    ensures NewestFirst(fs) == fs[1].Reading()
    ensures Sent(fs, 0) == [fs[0].Reading(), fs[1].Reading()]
    ensures Sent(fs, 1) == []
  {
    OneFrame(Front(fs));
    NoMacsNoSamples(Front(fs), 1);
  }

  /** Exactly when it is: only one address was ever seen, or the frame that introduced the
      newest one has expired. */
  lemma {:induction false} FaithfulExactly(fs: seq<Frame>)
    requires ClockOk(fs)
    ensures Faithful(fs) <==> |Macs(fs)| <= 1 || Outdated(Now(fs), NewestFirst(fs).date)
  {
    if |Macs(fs)| <= 1 || Outdated(Now(fs), NewestFirst(fs).date) {
      FaithfulOnceExpired(fs);
    } else {
      UnfaithfulBefore(fs);
    }
  }

  lemma {:induction false} FaithfulOnceExpired(fs: seq<Frame>)
    requires ClockOk(fs)
    requires |Macs(fs)| <= 1 || Outdated(Now(fs), NewestFirst(fs).date)
    ensures Faithful(fs)
  {
    RunDescribed(fs);
    var t := Run(fs);
    forall i | 0 <= i < |t| ensures t[i].window == Retained(Owned(fs, t[i].mac), Now(fs)) {
      SentVersusOwned(fs, i, Now(fs));
    }
  }

  lemma {:induction false} UnfaithfulBefore(fs: seq<Frame>)
    requires ClockOk(fs)
    requires |Macs(fs)| >= 2 && !Outdated(Now(fs), NewestFirst(fs).date)
    ensures !Faithful(fs)
  {
    RunDescribed(fs);
    var t, last := Run(fs), |Macs(fs)| - 1;
    NewestLacksItsFirst(fs, Now(fs));
    assert t[last].mac == Macs(fs)[last];
    assert |Retained(Owned(fs, t[last].mac), Now(fs))| == 1 + |t[last].window|;
  }

  lemma {:induction false} NewestLacksItsFirst(fs: seq<Frame>, now: Timeval)
    requires |Macs(fs)| >= 2
    ensures var last := |Macs(fs)| - 1;
            Retained(Owned(fs, Macs(fs)[last]), now) ==
            Retained([NewestFirst(fs)], now) + Retained(Sent(fs, last), now)
  {
    if Introduces(fs) {
      NewestStartsEmpty(fs);
    } else {
      NewestLacksItsFirst(Front(fs), now);
      NewestGoesOn(fs, now);
    }
  }

  lemma {:induction false} NewestGoesOn(fs: seq<Frame>, now: Timeval)
    requires fs != [] && Macs(fs) != [] && !Introduces(fs)
    requires var p, last := Front(fs), |Macs(fs)| - 1;
             Retained(Owned(p, Macs(fs)[last]), now) ==
             Retained([NewestFirst(fs)], now) + Retained(Sent(p, last), now)
    ensures var last := |Macs(fs)| - 1;
            Retained(Owned(fs, Macs(fs)[last]), now) ==
            Retained([NewestFirst(fs)], now) + Retained(Sent(fs, last), now)
  {
    var p, s, last := Front(fs), Last(fs).Reading(), |Macs(fs)| - 1;
    var mac := Macs(fs)[last];
    MacsDistinct(p);
    if Last(fs).Accepted() && Last(fs).source == mac {
      BothGrow(Owned(p, mac), Sent(p, last), NewestFirst(p), s, now);
    } else {
      assert Owned(fs, mac) == Owned(p, mac);
      assert Sent(fs, last) == Sent(p, last);
    }
  }

  lemma {:induction false} BothGrow(owned: seq<Sample>, sent: seq<Sample>, first: Sample, s: Sample, now: Timeval)
    requires Retained(owned, now) == Retained([first], now) + Retained(sent, now)
    ensures Retained(owned + [s], now) == Retained([first], now) + Retained(sent + [s], now)
  {
    RetainedAppend(owned, s, now);
    RetainedAppend(sent, s, now);
  }

  lemma {:induction false} NewestStartsEmpty(fs: seq<Frame>)
    requires |Macs(fs)| >= 2 && Introduces(fs)
    ensures var last := |Macs(fs)| - 1;
            Sent(fs, last) == [] && Owned(fs, Macs(fs)[last]) == [NewestFirst(fs)]
  {
    StrangersOwnNothing(Front(fs), Last(fs).source);
    NoMacsNoSamples(Front(fs), |Macs(fs)| - 1);
  }

  lemma {:induction false} SentVersusOwned(fs: seq<Frame>, i: nat, now: Timeval)
    requires ClockOk(fs) && i < |Macs(fs)|
    requires |Macs(fs)| <= 1 || Outdated(now, NewestFirst(fs).date)
    ensures Retained(Sent(fs, i), now) == Retained(Owned(fs, Macs(fs)[i]), now)
  {
    var p, f, mac := Front(fs), Last(fs), Macs(fs)[i];
    ClockOkFront(fs);
    if Introduces(fs) {
      IntroductionBalanced(fs, i, now);
    } else {
      SentVersusOwned(p, i, now);
      if f.Accepted() && f.source == mac {
        RetainedAppend(Owned(p, mac), f.Reading(), now);
        RetainedAppend(Sent(p, i), f.Reading(), now);
      } else {
        assert Owned(fs, mac) == Owned(p, mac);
        assert Sent(fs, i) == Sent(p, i);
      }
    }
  }

  lemma {:induction false} IntroductionBalanced(fs: seq<Frame>, i: nat, now: Timeval)
    requires fs != [] && ClockOk(fs) && Introduces(fs) && i < |Macs(fs)|
    requires |Macs(fs)| == 1 || Outdated(now, Last(fs).sampledAt)
    ensures Retained(Sent(fs, i), now) == Retained(Owned(fs, Macs(fs)[i]), now)
  {
    var p, mac := Front(fs), Macs(fs)[i];
    ClockOkFront(fs);
    if |Macs(fs)| == 1 {
      NoMacsNoSamples(p, i);
      StrangersOwnNothing(p, mac);
    } else {
      NowAdvances(fs);
      SentOrdered(p, i);
      OwnedOrdered(p, mac);
      AllOutdated(Sent(fs, i), now);
      AllOutdated(Owned(fs, mac), now);
    }
  }

  // ---- What the returned pointer costs ----

  /** As Admit, were `add_device` to return the node it appended. */
  function AdmitAppended(t: Table, mac: Mac): (r: (Table, nat))
    ensures r.1 < |r.0|
  {
    match Lookup(t, mac)
    case Some(k) => (t, k)
    case None => (t + [Device(mac, [])], |t|)
  }

  function RunAppended(fs: seq<Frame>): Table {
    if fs == [] then []
    else if !Last(fs).Accepted() then RunAppended(Front(fs))
    else
      var (t, k) := AdmitAppended(RunAppended(Front(fs)), Last(fs).source);
      Purge(AddSample(t, k, Last(fs).Reading()), Last(fs).purgedAt)
  }

  /** The table lists the addresses in order of first appearance, and every window holds exactly
      the still valid samples its own address sent. */
  ghost predicate DescribesOwned(t: Table, fs: seq<Frame>) {
    && Listed(t, Macs(fs))
    && forall i :: 0 <= i < |t| ==> t[i].window == Retained(Owned(fs, t[i].mac), Now(fs))
  }

  lemma {:induction false} AdmitAppendedDescribed(t: Table, fs: seq<Frame>)
    requires fs != [] && Last(fs).Accepted() && Listed(t, Macs(Front(fs)))
    ensures var (t1, k) := AdmitAppended(t, Last(fs).source);
            && Listed(t1, Macs(fs))
            && (forall i :: 0 <= i < |t1| ==> t1[i].window == if i < |t| then t[i].window else [])
            && (forall i :: 0 <= i < |t1| ==> (t1[i].mac == Last(fs).source <==> i == k))
  {
    AdmitDescribed(t, fs);
    MacsDistinct(fs);
    assert forall i :: 0 <= i < |t| ==> t[i].mac == Macs(Front(fs))[i];
  }

  lemma {:induction false} OwnedDescribed(fs: seq<Frame>, mac: Mac)
    requires fs != [] && ClockOk(fs) && Last(fs).Accepted()
    ensures var w := Retained(Owned(Front(fs), mac), Now(Front(fs)));
            var extra := if Last(fs).source == mac then Some(Last(fs).Reading()) else None;
            DropOutdated(With(w, extra), Now(fs)) == Retained(Owned(fs, mac), Now(fs))
  {
    var p := Front(fs);
    var extra := if Last(fs).source == mac then Some(Last(fs).Reading()) else None;
    ClockOkFront(fs);
    NowAdvances(fs);
    OwnedOrdered(p, mac);
    if Macs(p) == [] {
      StrangersOwnNothing(p, mac);
    }
    HistoryExtended(Owned(p, mac), Now(p), extra, Now(fs));
    assert Owned(fs, mac) == With(Owned(p, mac), extra);
  }

  lemma {:induction false} AppendedDelivered(fs: seq<Frame>, i: nat)
    requires fs != [] && Last(fs).Accepted()
    requires i < |Macs(fs)| && Listed(RunAppended(Front(fs)), Macs(Front(fs)))
    ensures Listed(RunAppended(fs), Macs(fs))
    ensures var before := if i < |RunAppended(Front(fs))| then RunAppended(Front(fs))[i].window else [];
            var extra := if Last(fs).source == Macs(fs)[i] then Some(Last(fs).Reading()) else None;
            RunAppended(fs)[i].window == DropOutdated(With(before, extra), Last(fs).purgedAt)
  {
    AdmitAppendedDescribed(RunAppended(Front(fs)), fs);
  }

  lemma {:induction false} AppendedWindow(fs: seq<Frame>, i: nat)
    requires fs != [] && ClockOk(fs) && Last(fs).Accepted()
    requires i < |Macs(fs)| && DescribesOwned(RunAppended(Front(fs)), Front(fs))
    ensures Listed(RunAppended(fs), Macs(fs))
    ensures RunAppended(fs)[i].window == Retained(Owned(fs, Macs(fs)[i]), Now(fs))
  {
    AppendedDelivered(fs, i);
    OwnedDescribed(fs, Macs(fs)[i]);
    if i >= |Macs(Front(fs))| {
      StrangersOwnNothing(Front(fs), Macs(fs)[i]);
    }
  }

  /** With that pointer every run would leave every address its own samples. */
  lemma {:induction false} AppendedIsFaithful(fs: seq<Frame>)
    requires ClockOk(fs)
    ensures DescribesOwned(RunAppended(fs), fs)
  {
    if fs != [] {
      ClockOkFront(fs);
      AppendedIsFaithful(Front(fs));
      AppendedStep(fs);
    }
  }

  lemma {:induction false} AppendedStep(fs: seq<Frame>)
    requires fs != [] && ClockOk(fs) && DescribesOwned(RunAppended(Front(fs)), Front(fs))
    ensures DescribesOwned(RunAppended(fs), fs)
  {
    if Last(fs).Accepted() {
      AdmitAppendedDescribed(RunAppended(Front(fs)), fs);
      forall i | 0 <= i < |Macs(fs)|
        ensures RunAppended(fs)[i].mac == Macs(fs)[i]
        ensures RunAppended(fs)[i].window == Retained(Owned(fs, Macs(fs)[i]), Now(fs))
      {
        AppendedWindow(fs, i);
      }
    } else {
      forall mac ensures Owned(fs, mac) == Owned(Front(fs), mac) {}
    }
  }

  /** So the pointer that is returned makes no difference to the table exactly when only one
      address was ever seen or the frame that introduced the newest one has expired. */
  lemma {:induction false} SameTableExactly(fs: seq<Frame>)
    requires ClockOk(fs)
    ensures Run(fs) == RunAppended(fs) <==> |Macs(fs)| <= 1 || Outdated(Now(fs), NewestFirst(fs).date)
  {
    FaithfulExactly(fs);
    AppendedIsFaithful(fs);
    RunListed(fs);
    var t, u := Run(fs), RunAppended(fs);
    assert forall i :: 0 <= i < |t| ==> t[i].mac == u[i].mac == Macs(fs)[i];
    if Faithful(fs) {
      assert forall i :: 0 <= i < |t| ==> t[i] == u[i];
    }
  }

  // ---- Averages ----

  /** What `average` returns: a level in dBm, or the not-a-number of 0.0 / 0.0. */
  datatype Level = Dbm(value: real) | NotANumber

  const UNKNOWN := Dbm(-95.0)

  function Sum(w: seq<Sample>): int {
    if w == [] then 0 else Sum(Front(w)) + Last(w).value
  }

  function Mean(w: seq<Sample>): Level {
    if w == [] then NotANumber else Dbm(Sum(w) as real / |w| as real)
  }

  function AverageOf(table: Option<Table>, mac: Mac): Level {
    match table
    case None => UNKNOWN
    case Some(t) =>
      match Lookup(t, mac)
      case None => UNKNOWN
      case Some(k) => Mean(t[k].window)
  }

  lemma {:induction false} MeanOfOne(s: Sample)
    ensures Mean([s]) == Dbm(s.value as real)
  {
    assert Front([s]) == [];
    assert Sum([s]) == s.value;
  }

  /** One more sample weighs as much as each of those before. */
  lemma {:induction false} MeanGrows(w: seq<Sample>, s: Sample)
    requires w != []
    ensures Mean(w).Dbm? && Mean(w + [s]).Dbm?
    ensures Mean(w + [s]).value * (|w| + 1) as real == Mean(w).value * |w| as real + s.value as real
  {
    assert Front(w + [s]) == w;
    QuotientTimes(Sum(w) as real, |w| as real);
    QuotientTimes(Sum(w + [s]) as real, (|w| + 1) as real);
  }

  lemma {:induction false} QuotientTimes(sum: real, n: real)
    requires n > 0.0
    ensures (sum / n) * n == sum
  {
  }

  /** The order in which the samples arrived makes no difference. */
  lemma {:induction false} MeanUnordered(a: seq<Sample>, b: seq<Sample>)
    requires multiset(a) == multiset(b)
    ensures Mean(a) == Mean(b)
  {
    SumUnordered(a, b);
    assert |a| == |multiset(a)| == |b|;
  }

  lemma {:induction false} SumUnordered(a: seq<Sample>, b: seq<Sample>)
    requires multiset(a) == multiset(b)
    ensures Sum(a) == Sum(b)
    decreases |a|
  {
    if a == [] {
      assert |b| == |multiset(b)| == 0;
    } else {
      var i := PositionOf(b, Last(a));
      MultisetFront(a);
      MultisetWithout(b, i);
      SumUnordered(Front(a), Without(b, i));
      SumWithout(b, i);
    }
  }

  lemma {:induction false} PositionOf(w: seq<Sample>, s: Sample) returns (i: nat)
    requires s in multiset(w)
    ensures i < |w| && w[i] == s
  {
    assert s in w;
    i :| i < |w| && w[i] == s;
  }

  lemma {:induction false} SumWithout(w: seq<Sample>, i: nat)
    requires i < |w|
    ensures Sum(w) == Sum(Without(w, i)) + w[i].value
  {
    var rest := Without(w, i);
    if i == |w| - 1 {
      assert rest == Front(w);
    } else {
      SumWithout(Front(w), i);
      assert Front(rest) == Without(Front(w), i) && Last(rest) == Last(w);
    }
  }

  /** A mean lies between any bounds of its samples. */
  lemma {:induction false} MeanWithin(w: seq<Sample>, lo: int, hi: int)
    requires w != [] && forall i :: 0 <= i < |w| ==> lo <= w[i].value <= hi
    ensures Mean(w).Dbm? && lo as real <= Mean(w).value <= hi as real
  {
    SumWithin(w, lo, hi);
    RepeatedIsProduct(lo, |w|);
    RepeatedIsProduct(hi, |w|);
    QuotientWithin(lo as real, hi as real, Sum(w) as real, |w| as real);
  }

  /** The sum of n equal values. */
  function Repeated(x: int, n: nat): int {
    if n == 0 then 0 else Repeated(x, n - 1) + x
  }

  lemma {:induction false} SumWithin(w: seq<Sample>, lo: int, hi: int)
    requires forall i :: 0 <= i < |w| ==> lo <= w[i].value <= hi
    ensures Repeated(lo, |w|) <= Sum(w) <= Repeated(hi, |w|)
  {
    if w != [] {
      SumWithin(Front(w), lo, hi);
    }
  }

  lemma {:induction false} RepeatedIsProduct(x: int, n: nat)
    ensures Repeated(x, n) as real == x as real * n as real
  {
    if n > 0 {
      RepeatedIsProduct(x, n - 1);
      OneMoreTime(x as real, (n - 1) as real);
    }
  }

  lemma {:induction false} OneMoreTime(x: real, n: real)
    ensures x * (n + 1.0) == x * n + x
  {
  }

  lemma {:induction false} QuotientWithin(lo: real, hi: real, sum: real, n: real)
    requires n > 0.0 && lo * n <= sum <= hi * n
    ensures lo <= sum / n <= hi
  {
    var q := sum / n;
    assert sum == q * n;
    if q < lo {
      LessTimes(q, lo, n);
    } else if hi < q {
      LessTimes(hi, q, n);
    }
  }

  lemma {:induction false} LessTimes(a: real, b: real, n: real)
    requires a < b && n > 0.0
    ensures a * n < b * n
  {
    assert (b - a) * n > 0.0;
  }

  /** A listed address reads as the mean of what its device holds, whatever the clock did. */
  lemma {:induction false} AverageOfDevice(fs: seq<Frame>, i: nat)
    requires i < |Run(fs)|
    ensures AverageOf(Some(Run(fs)), Run(fs)[i].mac) == Mean(Run(fs)[i].window)
  {
    RunListed(fs);
    MacsDistinct(fs);
    LookupDescribed(Run(fs), Macs(fs), Macs(fs)[i]);
  }

  /** Between frames, a listed address reads as the mean of what its device still holds of
      everything sent to it. */
  lemma {:induction false} AverageOfListed(fs: seq<Frame>, i: nat)
    requires ClockOk(fs) && i < |Macs(fs)|
    ensures AverageOf(Some(Run(fs)), Macs(fs)[i]) == Mean(Retained(Sent(fs, i), Now(fs)))
  {
    RunDescribed(fs);
    assert Run(fs)[i].mac == Macs(fs)[i];
    AverageOfDevice(fs, i);
  }

  lemma {:induction false} AverageOfUnlisted(fs: seq<Frame>, mac: Mac)
    requires mac !in Macs(fs)
    ensures AverageOf(Some(Run(fs)), mac) == AverageOf(None, mac) == Dbm(-95.0)
  {
    RunListed(fs);
    MacsDistinct(fs);
    LookupDescribed(Run(fs), Macs(fs), mac);
  }

  /** An address that joins a table that is not empty has no average until its second frame. */
  lemma {:induction false} NewcomerHasNoAverage(fs: seq<Frame>)
    requires fs != [] && Introduces(fs) && |Macs(fs)| >= 2
    ensures AverageOf(Some(Run(fs)), Last(fs).source) == NotANumber
  {
    var last := |Macs(fs)| - 1;
    var k := Delivered(fs);
    RunListed(Front(fs));
    RunListed(fs);
    assert SentTo(fs, last - 1) && Run(fs)[last].window == [];
    AverageOfDevice(fs, last);
  }

  // ---- Counting ----

  function AcceptedCount(fs: seq<Frame>): nat {
    if fs == [] then 0 else AcceptedCount(Front(fs)) + if Last(fs).Accepted() then 1 else 0
  }

  function Kept(t: Table): nat {
    if t == [] then 0 else Kept(Front(t)) + |Last(t).window|
  }

  function Occurrences(w: seq<Sample>, s: Sample): nat {
    if w == [] then 0 else Occurrences(Front(w), s) + if Last(w) == s then 1 else 0
  }

  function SumUp(counts: seq<nat>): nat {
    if counts == [] then 0 else SumUp(Front(counts)) + Last(counts)
  }

  /** How often the sample stands on the table, over all devices. */
  function OnTable(t: Table, s: Sample): nat {
    SumUp(seq(|t|, i requires 0 <= i < |t| => Occurrences(t[i].window, s)))
  }

  /** How often it was ever appended to each of the first n devices. */
  function SentCounts(fs: seq<Frame>, n: nat, s: Sample): seq<nat> {
    seq(n, i requires 0 <= i < n => Occurrences(Sent(fs, i), s))
  }

  /** The samples of all accepted frames, in arrival order. */
  function Readings(fs: seq<Frame>): seq<Sample> {
    if fs == [] then []
    else Readings(Front(fs)) + if Last(fs).Accepted() then [Last(fs).Reading()] else []
  }

  lemma {:induction false} OccurrencesAppend(w: seq<Sample>, r: Sample, s: Sample)
    ensures Occurrences(w + [r], s) == Occurrences(w, s) + if r == s then 1 else 0
  {
    assert Front(w + [r]) == w;
  }

  lemma {:induction false} OccurrencesRetained(w: seq<Sample>, now: Timeval, s: Sample)
    ensures Occurrences(Retained(w, now), s) == if Outdated(now, s.date) then 0 else Occurrences(w, s)
  {
    if w != [] {
      OccurrencesRetained(Front(w), now, s);
      if Outdated(now, Last(w).date) {
        assert Retained(w, now) == Retained(Front(w), now);
      } else {
        OccurrencesAppend(Retained(Front(w), now), Last(w), s);
      }
    }
  }

  lemma {:induction false} SentGrows(fs: seq<Frame>, i: nat, s: Sample)
    requires fs != []
    ensures Occurrences(Sent(fs, i), s) ==
            Occurrences(Sent(Front(fs), i), s) + if SentTo(fs, i) && Last(fs).Reading() == s then 1 else 0
  {
    if SentTo(fs, i) {
      OccurrencesAppend(Sent(Front(fs), i), Last(fs).Reading(), s);
    } else {
      assert Sent(fs, i) == Sent(Front(fs), i);
    }
  }

  lemma {:induction false} OneCountGrows(a: seq<nat>, b: seq<nat>, k: nat, more: nat)
    requires |a| == |b| && forall i :: 0 <= i < |a| ==> b[i] == a[i] + if i == k then more else 0
    ensures SumUp(b) == SumUp(a) + if k < |a| then more else 0
  {
    if a != [] {
      OneCountGrows(Front(a), Front(b), k, more);
    }
  }

  lemma {:induction false} NoCounts(counts: seq<nat>)
    requires forall i :: 0 <= i < |counts| ==> counts[i] == 0
    ensures SumUp(counts) == 0
  {
    if counts != [] {
      NoCounts(Front(counts));
    }
  }

  lemma {:induction false} CountsAfter(fs: seq<Frame>, n: nat, k: nat, s: Sample)
    requires fs != [] && forall i: nat :: i < n ==> (SentTo(fs, i) <==> i == k)
    ensures SumUp(SentCounts(fs, n, s)) ==
            SumUp(SentCounts(Front(fs), n, s)) + if k < n && Last(fs).Reading() == s then 1 else 0
  {
    var more := if Last(fs).Reading() == s then 1 else 0;
    var before, after := SentCounts(Front(fs), n, s), SentCounts(fs, n, s);
    forall i | 0 <= i < n ensures after[i] == before[i] + if i == k then more else 0 {
      SentGrows(fs, i, s);
    }
    OneCountGrows(before, after, k, more);
  }

  lemma {:induction false} NewDeviceCounts(fs: seq<Frame>, s: Sample)
    requires fs != []
    ensures SumUp(SentCounts(Front(fs), |Macs(fs)|, s)) == SumUp(SentCounts(Front(fs), |Macs(Front(fs))|, s))
  {
    var p := Front(fs);
    if Introduces(fs) {
      NoMacsNoSamples(p, |Macs(p)|);
      assert Front(SentCounts(p, |Macs(fs)|, s)) == SentCounts(p, |Macs(p)|, s);
    }
  }

  /** No accepted sample is lost on the way in or delivered twice: it is appended to all devices
      together as often as it arrived. */
  lemma {:induction false} EverySampleSentOnce(fs: seq<Frame>, s: Sample)
    ensures SumUp(SentCounts(fs, |Macs(fs)|, s)) == Occurrences(Readings(fs), s)
  {
    if fs != [] {
      var p := Front(fs);
      EverySampleSentOnce(p, s);
      NewDeviceCounts(fs, s);
      if Last(fs).Accepted() {
        var k := OneReceiver(fs);
        CountsAfter(fs, |Macs(fs)|, k, s);
        OccurrencesAppend(Readings(p), Last(fs).Reading(), s);
      } else {
        CountsAfter(fs, |Macs(fs)|, |Macs(fs)|, s);
        assert Readings(fs) == Readings(p);
      }
    }
  }

  lemma {:induction false} CountsOnTable(t: Table, fs: seq<Frame>, s: Sample)
    requires forall i :: 0 <= i < |t| ==> t[i].window == Retained(Sent(fs, i), Now(fs))
    ensures OnTable(t, s) == if Outdated(Now(fs), s.date) then 0 else SumUp(SentCounts(fs, |t|, s))
  {
    var counts := seq(|t|, i requires 0 <= i < |t| => Occurrences(t[i].window, s));
    forall i | 0 <= i < |t|
      ensures counts[i] == if Outdated(Now(fs), s.date) then 0 else SentCounts(fs, |t|, s)[i]
    {
      OccurrencesRetained(Sent(fs, i), Now(fs), s);
    }
    if Outdated(Now(fs), s.date) {
      NoCounts(counts);
    } else {
      assert counts == SentCounts(fs, |t|, s);
    }
  }

  /** Conservation: however the samples are spread over the devices, a sample stands on the table
      as often as it arrived if it is still valid, and not at all once it is outdated. */
  lemma {:induction false} TableHoldsReadings(fs: seq<Frame>, s: Sample)
    requires ClockOk(fs)
    ensures OnTable(Run(fs), s) == if Outdated(Now(fs), s.date) then 0 else Occurrences(Readings(fs), s)
  {
    RunDescribed(fs);
    CountsOnTable(Run(fs), fs, s);
    EverySampleSentOnce(fs, s);
  }
}
