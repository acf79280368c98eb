/**
 The device registry of the network scanner: one map from string keys to
 device records, cleared when a scan starts and written by two event sources,
 the mDNS service browser (keyed by service name) and the ARP packet handler
 (keyed by the sender's IP address). The two handlers run on their own threads
 and serialise their writes through one mutex, so a scan is modelled as a fold
 of the interleaved event sequence, in the order the writes took the lock.
 */
module Registry {
  import opened Wrappers
  import opened Bytes
  import opened Text
  import Arp

  /** One discovered device; `serviceType` is the record's `type` field. */
  datatype DeviceInfo = DeviceInfo(name: string, ip: string, mac: string, serviceType: string)

  /** The browser event kinds the mDNS library reports. */
  datatype BrowserEvent = BrowserNew | BrowserRemove | BrowserCacheExhausted | BrowserAllForNow | BrowserFailure

  /** How far the sniffer got: capturing, or stopped at opening, compiling or installing the "arp" filter. */
  datatype SnifferSetup = Capturing | OpenFailed | CompileFailed | SetFilterFailed

  /** A captured frame: the handler reads it as a full Ethernet header plus `struct ether_arp`. */
  type Frame = f: seq<byte> | |f| >= Arp.MinFrameLength witness seq(42, i => 0 as byte)

  /** The ether_ntoa rendering of a hardware address; its format is left to the caller. */
  type EtherText = seq<byte> -> string

  datatype Event =
    | Browse(event: BrowserEvent, name: string, serviceType: string)
    | Captured(frame: Frame)
    /** The scanning thread wakes from its sleep and sets `scan_complete`. */
    | Deadline

  /** The scanner's shared state: the registry, the `scan_complete` flag, and whether frames are being captured. */
  datatype Scanner = Scanner(devices: map<string, DeviceInfo>, complete: bool, sniffing: bool)

  /** One write into the registry. */
  datatype Put = Put(key: string, record: DeviceInfo)

  function ServiceRecord(name: string, serviceType: string): DeviceInfo {
    DeviceInfo(name, "", "", serviceType)
  }

  function ArpRecord(frame: Frame, etherText: EtherText): DeviceInfo {
    DeviceInfo("", IpText(Arp.SenderProtocol(frame)), etherText(Arp.SenderHardware(frame)), "")
  }

  /**
   The write an event asks for, before the `scan_complete` check and whether the
   sniffer is capturing at all are taken into account.
   */
  function Request(e: Event, etherText: EtherText): (p: Option<Put>)
    ensures e.Deadline? ==> p == None
    ensures e.Browse? ==> (p.Some? <==> e.event == BrowserNew)
    ensures e.Browse? && p.Some? ==> p.value == Put(e.name, DeviceInfo(e.name, "", "", e.serviceType))
    ensures e.Captured? ==>
              && p.Some?
              && p.value.key == p.value.record.ip == IpText(e.frame[28..32])
              && p.value.record.mac == etherText(e.frame[22..28])
              && p.value.record.name == p.value.record.serviceType == ""
  {
    match e
    case Deadline => None
    case Browse(event, name, serviceType) =>
      if event == BrowserNew then Some(Put(name, ServiceRecord(name, serviceType))) else None
    case Captured(frame) =>
      var d := ArpRecord(frame, etherText);
      Some(Put(d.ip, d))
  }

  /** Whether the handler of `e` writes, given the state it finds. */
  predicate Admits(s: Scanner, e: Event, etherText: EtherText) {
    Request(e, etherText).Some? && (e.Captured? ==> s.sniffing && !s.complete)
  }

  /** One handler invocation: the mDNS callback, the packet handler, or the end of the sleep. */
  function Apply(s: Scanner, e: Event, etherText: EtherText): (r: Scanner)
    ensures r.sniffing == s.sniffing
    ensures r.complete == (s.complete || e.Deadline?)
    ensures Admits(s, e, etherText) ==>
              var p := Request(e, etherText).value;
              r.devices == s.devices[p.key := p.record]
    ensures !Admits(s, e, etherText) ==> r.devices == s.devices
  {
    match e
    case Deadline => s.(complete := true)
    case Browse(event, name, serviceType) =>
      if event == BrowserNew then s.(devices := s.devices[name := ServiceRecord(name, serviceType)]) else s
    case Captured(frame) =>
      if !s.sniffing || s.complete then s
      else
        var d := ArpRecord(frame, etherText);
        s.(devices := s.devices[d.ip := d])
  }

  /** The handlers applied to `events` in order. */
  function Run(s: Scanner, events: seq<Event>, etherText: EtherText): Scanner
    decreases |events|
  {
    if |events| == 0 then s
    else Apply(Run(s, events[..|events| - 1], etherText), events[|events| - 1], etherText)
  }

  /** The start of a scan: `scan_complete` reset, the registry cleared, and the sniffer either capturing or not. */
  function StartScan(prior: Scanner, setup: SnifferSetup): Scanner {
    prior.(devices := map[], complete := false, sniffing := setup == Capturing)
  }

  /** The scanner's state once the handlers have seen `events`, in a scan started from `prior`. */
  function AfterScan(prior: Scanner, setup: SnifferSetup, events: seq<Event>, etherText: EtherText): Scanner {
    Run(StartScan(prior, setup), events, etherText)
  }

  // ---------------------------------------------------------------------------
  // A reference description of the registry, per event index.
  // ---------------------------------------------------------------------------

  /**
   Event `i` of a scan writes: an mDNS event only when it is a "new" event; a
   captured frame only when the sniffer is capturing and no deadline came before it.
   */
  ghost predicate Effective(setup: SnifferSetup, events: seq<Event>, i: int, etherText: EtherText) {
    && 0 <= i < |events|
    && Request(events[i], etherText).Some?
    && (events[i].Captured? ==> setup == Capturing && Deadline !in events[..i])
  }

  ghost predicate WritesKey(setup: SnifferSetup, events: seq<Event>, i: int, k: string, etherText: EtherText) {
    Effective(setup, events, i, etherText) && Request(events[i], etherText).value.key == k
  }

  /** Event `i` is the last event of the scan that writes key `k`. */
  ghost predicate LastWriter(setup: SnifferSetup, events: seq<Event>, i: int, k: string, etherText: EtherText) {
    && WritesKey(setup, events, i, k, etherText)
    && forall j :: i < j < |events| ==> !WritesKey(setup, events, j, k, etherText)
  }

  lemma {:induction false} RunFlags(prior: Scanner, setup: SnifferSetup, events: seq<Event>, etherText: EtherText)
    ensures AfterScan(prior, setup, events, etherText).complete == (Deadline in events)
    ensures AfterScan(prior, setup, events, etherText).sniffing == (setup == Capturing)
    decreases |events|
  {
    if |events| > 0 {
      var init := events[..|events| - 1];
      RunFlags(prior, setup, init, etherText);
      assert events == init + [events[|events| - 1]];
    }
  }

  /** Appending an event does not change which earlier events write which keys. */
  lemma WritersOfPrefix(setup: SnifferSetup, events: seq<Event>, k: string, etherText: EtherText)
    requires |events| > 0
    ensures forall i :: 0 <= i < |events| - 1 ==>
              (WritesKey(setup, events, i, k, etherText) <==> WritesKey(setup, events[..|events| - 1], i, k, etherText))
  {
  }

  /** One more event: the registry gains the event's write exactly when the event is effective. */
  lemma LastStep(prior: Scanner, setup: SnifferSetup, events: seq<Event>, etherText: EtherText)
    requires |events| > 0
    ensures var n := |events| - 1;
            var before := AfterScan(prior, setup, events[..n], etherText).devices;
            var p := Request(events[n], etherText);
            AfterScan(prior, setup, events, etherText).devices
              == if Effective(setup, events, n, etherText) then before[p.value.key := p.value.record] else before
  {
    var n := |events| - 1;
    RunFlags(prior, setup, events[..n], etherText);
    assert events[..n] == events[..n][..n];
  }

  /**
   Last write wins in one shared map: a key is present exactly when some
   effective event of this scan wrote it, and it then holds the record of the
   last such event. Nothing from before the scan survives.
   */
  lemma {:induction false} LastWriteWins(prior: Scanner, setup: SnifferSetup, events: seq<Event>, k: string, etherText: EtherText)
    ensures var reg := AfterScan(prior, setup, events, etherText).devices;
            k in reg <==> exists i :: WritesKey(setup, events, i, k, etherText)
    ensures var reg := AfterScan(prior, setup, events, etherText).devices;
            k in reg ==> exists i :: LastWriter(setup, events, i, k, etherText) && reg[k] == Request(events[i], etherText).value.record
    decreases |events|
  {
    if |events| > 0 {
      var n := |events| - 1;
      var init := events[..n];
      var before := AfterScan(prior, setup, init, etherText).devices;
      var reg := AfterScan(prior, setup, events, etherText).devices;
      LastWriteWins(prior, setup, init, k, etherText);
      WritersOfPrefix(setup, events, k, etherText);
      LastStep(prior, setup, events, etherText);
      if WritesKey(setup, events, n, k, etherText) {
        assert LastWriter(setup, events, n, k, etherText);
      } else if k in reg {
        assert k in before;
        var i :| LastWriter(setup, init, i, k, etherText) && before[k] == Request(init[i], etherText).value.record;
        assert LastWriter(setup, events, i, k, etherText);
      } else {
        assert k !in before;
      }
    }
  }

  /** Every record a scan holds was written during that scan, by an event carrying it. */
  lemma RecordsComeFromThisScan(prior: Scanner, setup: SnifferSetup, events: seq<Event>, k: string, etherText: EtherText)
    requires k in AfterScan(prior, setup, events, etherText).devices
    ensures exists i :: 0 <= i < |events| && Request(events[i], etherText) == Some(Put(k, AfterScan(prior, setup, events, etherText).devices[k]))
  {
    LastWriteWins(prior, setup, events, k, etherText);
    var i :| LastWriter(setup, events, i, k, etherText) && AfterScan(prior, setup, events, etherText).devices[k] == Request(events[i], etherText).value.record;
    assert Request(events[i], etherText) == Some(Put(k, AfterScan(prior, setup, events, etherText).devices[k]));
  }

  lemma {:induction false} RunAppend(s: Scanner, a: seq<Event>, b: seq<Event>, etherText: EtherText)
    ensures Run(s, a + b, etherText) == Run(Run(s, a, etherText), b, etherText)
    decreases |b|
  {
    if |b| == 0 {
      assert a + b == a;
    } else {
      RunAppend(s, a, b[..|b| - 1], etherText);
      assert (a + b)[..|a + b| - 1] == a + b[..|b| - 1];
    }
  }

  /**
   An event the handlers ignore: an mDNS event other than "new", or a frame
   when the sniffer never started capturing or `scan_complete` is already set.
   */
  predicate Ignored(setup: SnifferSetup, earlier: seq<Event>, e: Event) {
    || (e.Browse? && e.event != BrowserNew)
    || (e.Captured? && (setup != Capturing || Deadline in earlier))
  }

  /** Removing an ignored event from a scan leaves the whole outcome unchanged. */
  lemma IgnoredEventIsInvisible(prior: Scanner, setup: SnifferSetup, earlier: seq<Event>, e: Event, later: seq<Event>, etherText: EtherText)
    requires Ignored(setup, earlier, e)
    ensures AfterScan(prior, setup, earlier + [e] + later, etherText) == AfterScan(prior, setup, earlier + later, etherText)
  {
    var s := StartScan(prior, setup);
    RunFlags(prior, setup, earlier, etherText);
    RunAppend(s, earlier + [e], later, etherText);
    RunAppend(s, earlier, [e], etherText);
    RunAppend(s, earlier, later, etherText);
    assert [e][..0] == [];
    assert Run(Run(s, earlier, etherText), [e], etherText) == Run(s, earlier, etherText);
  }

  /** With the sniffer stopped at open, compile or filter install, every record is an mDNS record under its own name. */
  lemma FailedSnifferAddsNoRecords(prior: Scanner, setup: SnifferSetup, events: seq<Event>, etherText: EtherText)
    requires setup != Capturing
    ensures var reg := AfterScan(prior, setup, events, etherText).devices;
            forall k :: k in reg ==> reg[k] == DeviceInfo(k, "", "", reg[k].serviceType)
  {
    var reg := AfterScan(prior, setup, events, etherText).devices;
    forall k | k in reg
      ensures reg[k] == DeviceInfo(k, "", "", reg[k].serviceType)
    {
      LastWriteWins(prior, setup, events, k, etherText);
    }
  }

  /** Keys tell the two record kinds apart: an mDNS record sits under its name, an ARP record under its non-empty IP. */
  ghost predicate KeyedByOwnField(m: map<string, DeviceInfo>) {
    forall k :: k in m ==>
      || (m[k].ip == "" && m[k].name == k)
      || (m[k].ip == k && k != "" && m[k].name == "")
  }

  lemma {:induction false} RegistryKeyedByOwnField(prior: Scanner, setup: SnifferSetup, events: seq<Event>, etherText: EtherText)
    ensures KeyedByOwnField(AfterScan(prior, setup, events, etherText).devices)
    decreases |events|
  {
    if |events| > 0 {
      var init := events[..|events| - 1];
      RegistryKeyedByOwnField(prior, setup, init, etherText);
      var e := events[|events| - 1];
      if e.Captured? {
        IpTextNonEmpty(Arp.SenderProtocol(e.frame));
      }
    }
  }

  lemma KeyedRecordsDistinct(m: map<string, DeviceInfo>, k1: string, k2: string)
    requires KeyedByOwnField(m)
    requires k1 in m && k2 in m && k1 != k2
    ensures m[k1] != m[k2]
  {
  }

  /**
   Copies the map's values into a sequence in some iteration order, as the
   range-for over the unordered map does. `order` names the key each position came from.
   */
  method Snapshot(devices: map<string, DeviceInfo>) returns (result: seq<DeviceInfo>, ghost order: seq<string>)
    ensures |result| == |devices|
    ensures forall d :: d in result <==> d in devices.Values
    ensures |order| == |devices|
    ensures forall i, j :: 0 <= i < j < |order| ==> order[i] != order[j]
    ensures forall k :: k in devices <==> k in order
    ensures forall i :: 0 <= i < |order| ==> order[i] in devices && result[i] == devices[order[i]]
  {
    var remaining := devices.Keys;
    result := [];
    order := [];
    while remaining != {}
      invariant remaining <= devices.Keys
      invariant forall k :: k in devices ==> (k in remaining <==> k !in order)
      invariant |result| == |order| && |order| + |remaining| == |devices|
      invariant forall i :: 0 <= i < |order| ==> order[i] in devices && result[i] == devices[order[i]]
      invariant forall i, j :: 0 <= i < j < |order| ==> order[i] != order[j]
      decreases |remaining|
    {
      var k :| k in remaining;
      result := result + [devices[k]];
      order := order + [k];
      remaining := remaining - {k};
    }
  }

  /**
   A whole scan: clear, let the handlers see `events`, then snapshot. The
   result holds every stored record exactly once, in no particular order. With
   the sniffer capturing, the program reaches the snapshot only after capture
   has ended with an error, since the capture loop is never broken off.
   */
  method Scan(prior: Scanner, setup: SnifferSetup, events: seq<Event>, etherText: EtherText) returns (result: seq<DeviceInfo>)
    ensures var reg := AfterScan(prior, setup, events, etherText).devices;
            && |result| == |reg|
            && (forall d :: d in result <==> d in reg.Values)
            && (forall i, j :: 0 <= i < j < |result| ==> result[i] != result[j])
  {
    var s := AfterScan(prior, setup, events, etherText);
    ghost var order;
    result, order := Snapshot(s.devices);
    RegistryKeyedByOwnField(prior, setup, events, etherText);
    forall d | d in s.devices.Values
      ensures d in result
    {
      var k :| k in s.devices && s.devices[k] == d;
      assert k in order;
      var i :| 0 <= i < |order| && order[i] == k;
      assert result[i] == d;
    }
    forall i, j | 0 <= i < j < |result|
      ensures result[i] != result[j]
    {
      KeyedRecordsDistinct(s.devices, order[i], order[j]);
    }
  }

  /** An mDNS service named like an IP address shares that address's key: whichever writes last is kept. */
  lemma SharedKeyspace(prior: Scanner, frame: Frame, serviceType: string, etherText: EtherText)
    ensures var name := IpText(Arp.SenderProtocol(frame));
            AfterScan(prior, Capturing, [Captured(frame), Browse(BrowserNew, name, serviceType)], etherText).devices
              == map[name := ServiceRecord(name, serviceType)]
    ensures var name := IpText(Arp.SenderProtocol(frame));
            AfterScan(prior, Capturing, [Browse(BrowserNew, name, serviceType), Captured(frame)], etherText).devices
              == map[name := ArpRecord(frame, etherText)]
  {
    var name := IpText(Arp.SenderProtocol(frame));
    var s := StartScan(prior, Capturing);
    var arp := Captured(frame);
    var svc := Browse(BrowserNew, name, serviceType);
    assert [arp, svc][..1] == [arp] && [svc, arp][..1] == [svc];
    assert [arp][..0] == [] && [svc][..0] == [];
    assert Run(s, [arp], etherText) == Apply(s, arp, etherText);
    assert Run(s, [svc], etherText) == Apply(s, svc, etherText);
    assert Run(s, [arp, svc], etherText) == Apply(Apply(s, arp, etherText), svc, etherText);
    assert Run(s, [svc, arp], etherText) == Apply(Apply(s, svc, etherText), arp, etherText);
  }

  lemma ExampleOctets()
    ensures NatText(192) == "192" && NatText(168) == "168" && NatText(1) == "1" && NatText(10) == "10"
  {
  }

  lemma ExampleJoin()
    ensures Join(["192", "168", "1", "10"], '.') == "192.168.1.10"
  {
  }

  lemma ExampleAddressText(addr: seq<byte>)
    requires addr == [192, 168, 1, 10]
    ensures IpText(addr) == "192.168.1.10"
  {
    ExampleOctets();
    ExampleJoin();
  }

  /** An ARP reply from 192.168.1.10 is recorded under that address with the sender's MAC rendering. */
  lemma ReplyIsRecorded(prior: Scanner, dst: seq<byte>, mac: seq<byte>, target: Arp.ArpPacket, padding: seq<byte>, etherText: EtherText)
    requires |dst| == 6 && |mac| == 6
    requires |target.tha| == 6 && |target.tpa| == 4
    ensures var p := Arp.ArpPacket(2, mac, [192, 168, 1, 10], target.tha, target.tpa);
            var frame := Arp.EncodeFrame(dst, mac, p, padding);
            AfterScan(prior, Capturing, [Captured(frame)], etherText).devices
              == map["192.168.1.10" := DeviceInfo("", "192.168.1.10", etherText(mac), "")]
  {
    var p := Arp.ArpPacket(2, mac, [192, 168, 1, 10], target.tha, target.tpa);
    var frame := Arp.EncodeFrame(dst, mac, p, padding);
    Arp.SenderFieldsOfEncodedFrame(dst, mac, p, padding);
    ExampleAddressText(p.spa);
    var s := StartScan(prior, Capturing);
    assert [Captured(frame)][..0] == [];
    assert Run(s, [Captured(frame)], etherText) == Apply(s, Captured(frame), etherText);
  }
}
