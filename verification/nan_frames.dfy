/**
 The Go sender of NAN (Wi-Fi Aware) frames: shared buffers that every call overwrites in place,
 and the gate that decides whether a frame goes out.
 */
module NanFrames {
  import opened Bytes
  import opened Tlv
  import opened NanGate

  /** The service id of DMesh. */
  const SVC_ID: Octets := [0x75, 0x94, 0x31, 0x93, 0xea, 0xc9]

  /** A hardware address. */
  type Mac = m: Octets | |m| == 6 witness [0, 0, 0, 0, 0, 0]

  const ZERO_MAC: Mac := [0, 0, 0, 0, 0, 0]
  const BROADCAST: Mac := [0xff, 0xff, 0xff, 0xff, 0xff, 0xff]
  const NAN_MULTICAST: Mac := [0x51, 0x6f, 0x9a, 0x01, 0x00, 0x00]

  /** The fixed bytes of a NAN BSSID; the two behind them name the cluster. */
  const NAN_BSSID: Octets := [0x50, 0x6f, 0x9a, 0x01]

  /** The vendor id and the NAN type that open the content of every NAN element. */
  const NAN_TAG: Octets := [0x50, 0x6f, 0x9a, 0x13]

  /** The 24-byte 802.11 header of an action frame and the 6-byte NAN tag behind it. */
  function ActionHead(dst: Mac, src: Mac, cluster: Octets): (h: Octets)
    requires |cluster| == 2
    ensures |h| == 30
  {
    [0xd0, 0, 0, 0] + dst + src + NAN_BSSID + cluster + [0, 0, 4, 9] + NAN_TAG
  }

  const CLUSTER: Octets := [0xd9, 0x49]

  const DEVICE_CAP: Octets := [0, 1, 0, 4, 1, 0, 0, 0x14, 0]
  const AVAILABILITY: Octets := [
    0x0b, 0x01, 0x00, 0x16, 0x00, 0x1a, 0x10, 0x18, 0x00, 0x04, 0xfe,
    0xff, 0xff, 0x3f, 0x31, 0x51, 0xff, 0x07, 0x00, 0x80, 0x20, 0x00, 0x0f, 0x80, 0x01, 0x00, 0x0f]
  const EXTENSION: Octets := [1, 0, 2, 2]

  const CAP_ATT: Octets := [0x0f, 9, 0] + DEVICE_CAP
  const AVAIL_ATT: Octets := [0x12, 0x1b, 0] + AVAILABILITY
  const EXT_ATT: Octets := [0x0e, 4, 0] + EXTENSION
  const DESCRIPTOR_ATT: Octets := [3, 0x1a, 0] + SVC_ID + [1, 0, 0x10, 0]

  const FIXED_BYTES: Octets := CAP_ATT + AVAIL_ATT + EXT_ATT
  const FOLLOWUP_ATT: Octets := [3, 0x0e, 0] + SVC_ID + [0x80, 0x80, 0x12, 4]

  // ----- Frames

  /** A service descriptor's content: service id, instance, requestor, control, length, data. */
  function Descriptor(instance: Byte, requestor: Byte, control: Byte, sdu: Octets): (d: Octets)
    ensures |d| == |sdu| + 10
  {
    SVC_ID + [instance, requestor, control, |sdu| % 256] + sdu
  }

  /** The fixed attributes of a discovery frame, before its service descriptor. */
  const FIXED_ATTS: seq<IE> := [IE(0x0f, DEVICE_CAP), IE(0x12, AVAILABILITY), IE(0x0e, EXTENSION)]

  function DiscoveryAtts(sdu: Octets): seq<IE> {
    FIXED_ATTS + [IE(3, Descriptor(1, 0, 0x10, sdu))]
  }

  function FollowupAtts(sdu: Octets): seq<IE> {
    [IE(3, Descriptor(0x80, 0x80, 0x12, sdu))]
  }

  /** An attribute header with the length a total needs, in two bytes. */
  function AttHead(id: Byte, total: nat): (h: Octets)
    ensures |h| == 3
  {
    [id, total % 256, total / 256 % 256]
  }

  function Discovery(src: Mac, sdu: Octets): (f: Octets)
    ensures |f| == 92 + |sdu|
  {
    ActionHead(NAN_MULTICAST, src, CLUSTER)
    + (FIXED_BYTES + (AttHead(3, |sdu| + 10) + Descriptor(1, 0, 0x10, sdu)))
  }

  function Followup(src: Mac, sdu: Octets): (f: Octets)
    ensures |f| == 43 + |sdu|
  {
    ActionHead(BROADCAST, src, CLUSTER) + (AttHead(3, |sdu| + 10) + Descriptor(0x80, 0x80, 0x12, sdu))
  }

  /** A beacon from `src` with master `master`; `stuck` tells the interval of 128 from that of 512. */
  function Beacon(src: Mac, time: Octets, stuck: bool, master: Mac): (f: Octets)
    requires |time| == 8
    ensures |f| == 72
  {
    [0x80, 0, 0, 0] + BROADCAST + src + NAN_BSSID + CLUSTER + [0, 0] + time
    + (if stuck then [128, 0] else [0, 2]) + [0x20, 4] + ([0xdd, 34] + NAN_TAG + BeaconAtts(master))
  }

  /** The timestamp in the beacon table as it is declared. */
  const FIRST_TIME: Octets := [0xcc, 0, 0xc0, 0xb3, 1, 2, 3, 4]

  /** Master indication, cluster and service id list. */
  function BeaconAtts(master: Mac): (f: Octets)
    ensures |f| == 30
  {
    [0, 2, 0, 140, 0xfe] + ([1, 13, 0] + master + [0xfe, 140, 0, 0, 0, 0, 0]) + ([2, 6, 0] + SVC_ID)
  }

  /** A frame with the sender's address filled in. */
  function Sourced(frame: Octets, hw: Mac): Octets
    requires |frame| >= 16
  {
    frame[..10] + hw + frame[16..]
  }

  // ----- The sender

  function Put(s: Octets, off: nat, p: Octets): Octets
    requires off + |p| <= |s|
  {
    s[..off] + p + s[off + |p|..]
  }

  /** `copy(b[off:], p)`, with room for all of `p`. */
  method Copy(b: array<Byte>, off: nat, p: Octets)
    requires off + |p| <= b.Length
    modifies b
    ensures b[..] == old(b[..off]) + p + old(b[off + |p|..])
    ensures b[..] == Put(old(b[..]), off, p)
  {
    for i := 0 to |p|
      invariant forall k :: 0 <= k < b.Length && !(off <= k < off + i) ==> b[k] == old(b[k])
      invariant forall k :: 0 <= k < i ==> b[off + k] == p[k]
    {
      b[off + i] := p[i];
    }
    assert forall k :: 0 <= k < |p| ==> b[..][off + k] == p[k];
  }

  /** A copy behind what is already written, and the new length. */
  method Write(b: array<Byte>, off: nat, p: Octets) returns (next: nat)
    requires off + |p| <= b.Length
    modifies b
    ensures next == off + |p| && b[..next] == old(b[..off]) + p
  {
    Copy(b, off, p);
    next := off + |p|;
  }

  lemma PatchesDescriptor(front: Octets, now: Octets, n: nat)
    requires |front| == 79 && |now| == 92
    requires now == (front + DESCRIPTOR_ATT)[91 := n % 256][80 := (n + 10) % 256][81 := (n + 10) / 256 % 256]
    ensures now == front + (AttHead(3, n + 10) + (SVC_ID + [1, 0, 0x10, n % 256]))
  {
  }

  lemma PatchesFollowup(now: Octets, n: nat)
    requires |now| == 43
    requires now == (ActionHead(BROADCAST, ZERO_MAC, CLUSTER) + FOLLOWUP_ATT)
                      [31 := (n + 10) % 256][32 := (n + 10) / 256 % 256][42 := n % 256]
    ensures now == ActionHead(BROADCAST, ZERO_MAC, CLUSTER) +
                   (AttHead(3, n + 10) + (SVC_ID + [0x80, 0x80, 0x12, n % 256]))
  {
  }

  method FillDiscovery(outBuf: array<Byte>, sdu: Octets) returns (end: nat)
    requires outBuf.Length == 4096 && 92 + |sdu| <= 4096
    modifies outBuf
    ensures 92 <= end <= 4096 && outBuf[..end] == Discovery(ZERO_MAC, sdu)
  {
    var off := FillFixed(outBuf);
    end := FillDescriptor(outBuf, off, |sdu|);
    end := Write(outBuf, end, sdu);
    assert outBuf[..end] == Discovery(ZERO_MAC, sdu);
  }

  method FillFixed(outBuf: array<Byte>) returns (off: nat)
    requires outBuf.Length == 4096
    modifies outBuf
    ensures off == 79 && outBuf[..off] == ActionHead(NAN_MULTICAST, ZERO_MAC, CLUSTER) + FIXED_BYTES
  {
    off := WriteFour(outBuf, ActionHead(NAN_MULTICAST, ZERO_MAC, CLUSTER), CAP_ATT, AVAIL_ATT, EXT_ATT);
  }

  /** Four copies, one behind the other. */
  method WriteFour(b: array<Byte>, p: Octets, q: Octets, r: Octets, s: Octets) returns (off: nat)
    requires |p| + |q| + |r| + |s| <= b.Length
    modifies b
    ensures off == |p| + |q| + |r| + |s| && b[..off] == p + (q + r + s)
  {
    off := Write(b, 0, p);
    off := Write(b, off, q);
    off := Write(b, off, r);
    off := Write(b, off, s);
    assert b[..off] == p + q + r + s;
    FourParts(p, q, r, s);
  }

  lemma FourParts(a: Octets, b: Octets, c: Octets, d: Octets)
    ensures a + b + c + d == a + (b + c + d)
  {
  }

  /** The template of a service descriptor, and its three length bytes patched. */
  method FillDescriptor(outBuf: array<Byte>, off: nat, tl: nat) returns (end: nat)
    requires off == 79 && outBuf.Length == 4096
    modifies outBuf
    ensures end == off + 13
    ensures outBuf[..end] == old(outBuf[..off]) + (AttHead(3, tl + 10) + (SVC_ID + [1, 0, 0x10, tl % 256]))
  {
    end := Write(outBuf, off, DESCRIPTOR_ATT);
    outBuf[off + 12] := tl % 256;
    var totalAtt := tl + 13 - 3;
    outBuf[off + 1] := totalAtt % 256;
    outBuf[off + 2] := totalAtt / 256 % 256;
    PatchesDescriptor(old(outBuf[..off]), outBuf[..end], tl);
  }

  method FillFollowup(outBuf: array<Byte>, sdu: Octets) returns (end: nat)
    requires outBuf.Length == 4096 && 43 + |sdu| <= 4096
    modifies outBuf
    ensures 43 <= end <= 4096 && outBuf[..end] == Followup(ZERO_MAC, sdu)
  {
    var off := Write(outBuf, 0, ActionHead(BROADCAST, ZERO_MAC, CLUSTER) + FOLLOWUP_ATT);
    var tl := |sdu| + 10;
    outBuf[31] := tl % 256;
    outBuf[32] := tl / 256 % 256;
    outBuf[42] := |sdu| % 256;
    PatchesFollowup(outBuf[..off], |sdu|);
    end := Write(outBuf, off, sdu);
  }

  /** Filling in the sender's address. */
  lemma SourceHead(dst: Mac, hw: Mac, rest: Octets)
    ensures Sourced(ActionHead(dst, ZERO_MAC, CLUSTER) + rest, hw) == ActionHead(dst, hw, CLUSTER) + rest
  {
  }

  lemma BeaconInterval(src: Mac, time: Octets, stuck: bool, master: Mac)
    requires |time| == 8
    ensures Beacon(src, time, stuck, master)[32 := 128][33 := 0] == Beacon(src, time, true, master)
  {
  }

  lemma BeaconPatches(src: Mac, was: Octets, stuck: bool, oldMaster: Mac, time: Octets, master: Mac)
    requires |was| == |time| == 8
    ensures var b := Beacon(src, was, stuck, oldMaster);
            var c := b[..24] + time + b[32..];
            c[..50] + master + c[56..] == Beacon(src, time, stuck, master)
  {
  }

  lemma SourceBeacon(src: Mac, time: Octets, stuck: bool, master: Mac, hw: Mac)
    requires |time| == 8
    ensures Sourced(Beacon(src, time, stuck, master), hw) == Beacon(hw, time, stuck, master)
  {
  }

  method FillBeacon(b: array<Byte>, syncFrame: bool, time: Octets, hw: Mac,
                    ghost src: Mac, ghost was: Octets, ghost stuck: bool, ghost master: Mac)
    requires |was| == |time| == 8 && b[..] == Beacon(src, was, stuck, master)
    modifies b
    ensures b[..] == Beacon(src, time, stuck || !syncFrame, hw)
  {
    if !syncFrame {
      BeaconInterval(src, was, stuck, master);
      b[32] := 128;
      b[33] := 0;
      assert b[..] == old(b[..])[32 := 128][33 := 0];
    }
    BeaconPatches(src, was, stuck || !syncFrame, master, time, hw);
    Copy(b, 24, time);
    Copy(b, 50, hw);
  }

  class Nan {
    const hw: Mac
    const outBuf: array<Byte>
    const beaconHead: array<Byte>
    var lastSent: Option<int>
    var sendErrors: nat

    /** What the gate saw, and the frames that were handed to the kernel. */
    ghost var log: Log
    ghost var sent: seq<Octets>

    /** The longest that a call took from its first reading of the clock to its sending, the first
        reading of the last call, and the time of the last event. */
    ghost var delay: nat
    ghost var ended: int
    ghost var clock: int

    /** What the beacon buffer holds. */
    ghost var beaconSrc: Mac
    ghost var beaconTime: Octets
    ghost var beaconMaster: Mac
    ghost var stuck: bool

    ghost predicate Gated()
      reads this`lastSent, this`log, this`delay, this`ended, this`clock
    {
      lastSent == LastSent(log) && Whole(log, delay, ended, clock)
    }

    ghost predicate Valid()
      reads this, beaconHead
    {
      && Gated() && outBuf != beaconHead && outBuf.Length == 4096 && |beaconTime| == 8
      && beaconHead[..] == Beacon(beaconSrc, beaconTime, stuck, beaconMaster)
    }

    /** A sender over the two shared buffers, before anything was sent. */
    constructor (hw: Mac, outBuf: array<Byte>, beaconHead: array<Byte>, ghost now: int)
      requires outBuf != beaconHead && outBuf.Length == 4096
      requires beaconHead[..] == Beacon(ZERO_MAC, FIRST_TIME, false, ZERO_MAC)
      ensures Valid() && this.hw == hw && this.outBuf == outBuf && this.beaconHead == beaconHead
      ensures lastSent == None && log == [] && sent == [] && clock == ended == now && delay == 0 && !stuck
    {
      this.hw, this.outBuf, this.beaconHead := hw, outBuf, beaconHead;
      lastSent, sendErrors, log, sent := None, 0, [], [];
      delay, ended, clock := 0, now, now;
      beaconSrc, beaconTime, beaconMaster, stuck := ZERO_MAC, FIRST_TIME, ZERO_MAC, false;
    }

    /** Whether a call finds the gate open. */
    predicate Opens(call: Call)
      reads this`lastSent
    {
      !Closed(if call.before.Some? then None else lastSent, call.t1)
    }

    /** The stamp and the log behind a call. */
    ghost predicate Called(was: Option<int>, before: Log, open: bool, call: Call)
      reads this`lastSent, this`log, this`delay, this`ended, this`clock
    {
      && Gated() && SpacedSinceStore(log, 100_000_000 - delay) && (Quiet(log) ==> Spaced(log, 100_000_000 - delay))
      && log == (if open then Passed(before, call) else Tested(before, call, false))
      && lastSent == (if !open then if call.before.Some? then None else was
                      else if call.late.Some? then None else Some(call.t0))
      && ended == call.t0 && clock <= call.sent
    }

    /** Fills in this station's address and, if the gate is open, hands the frame over. `call` is what
        happens meanwhile, status events included, and `ok` is whether the kernel took the frame.
        Transmissions with no status since the first one's stamp was stored stay 100 ms apart, less
        the longest delay, and so do those with none between them if none came between storing and
        sending. */
    method SendFrameRaw(buf: array<Byte>, n: nat, call: Call, ok: bool) returns (err: bool)
      requires Gated() && 16 <= n <= buf.Length && call.CanBegin(ended, clock)
      modifies this`lastSent, this`sendErrors, this`log, this`delay, this`ended, this`clock, this`sent, buf
      ensures Called(old(lastSent), old(log), old(Opens(call)), call)
      ensures buf[..] == old(buf[..10]) + hw + old(buf[16..])
      ensures buf[..n] == Sourced(old(buf[..n]), hw)
      ensures var open := old(Opens(call));
              && err == (open && !ok)
              && sent == old(sent) + (if open then [Sourced(old(buf[..n]), hw)] else [])
              && sendErrors == old(sendErrors) + (if err then 1 else 0)
              && delay == (if open then Longer(old(delay), call.t0, call.sent) else old(delay))
    {
      hide Called, Gated;
      Copy(buf, 10, hw);
      assert buf[..n] == Sourced(old(buf[..n]), hw);
      var open := PassGate(call);
      if !open {
        return false;
      }
      sent := sent + [buf[..n]];
      if !ok {
        sendErrors := sendErrors + 1;
        return true;
      }
      return false;
    }

    /** The two readings of the clock, the test, the storing and the moment of sending, with the status
        events that come in between. */
    method PassGate(call: Call) returns (open: bool)
      requires Gated() && call.CanBegin(ended, clock)
      modifies this`lastSent, this`log, this`delay, this`ended, this`clock
      ensures open == old(Opens(call)) && Called(old(lastSent), old(log), open, call)
      ensures delay == if open then Longer(old(delay), call.t0, call.sent) else old(delay)
    {
      hide Whole, LastSent, SpacedSinceStore, Spaced, Quiet, Tested, Stored, Passed;
      ghost var before := log;
      LogHeld(before, delay, ended, clock, call);
      if call.before.Some? {
        lastSent := None;
      }
      if lastSent.Some? && call.t1 - lastSent.value < GATE {
        log, ended, clock := Tested(before, call, false), call.t0, call.t1;
        WholeIsSpaced(log, delay, ended, clock);
        return false;
      }
      LogStored(before, delay, call);
      LogPassed(before, delay, call);
      if call.early.Some? {
        lastSent := None;
      }
      lastSent := Some(call.t0);
      if call.late.Some? {
        lastSent := None;
      }
      log, delay := Passed(before, call), Longer(delay, call.t0, call.sent);
      ended, clock := call.t0, call.sent;
      WholeIsSpaced(log, delay, ended, clock);
      return true;
    }

    /** Publishes `sdu`; the slice that is sent needs it to fit the shared buffer. */
    method SendDiscovery(sdu: Octets, call: Call, ok: bool)
      requires Gated() && outBuf.Length == 4096 && 92 + |sdu| <= 4096 && call.CanBegin(ended, clock)
      modifies this`lastSent, this`sendErrors, this`log, this`delay, this`ended, this`clock, this`sent, outBuf
      ensures Called(old(lastSent), old(log), old(Opens(call)), call)
      ensures sent == old(sent) + if old(Opens(call)) then [Discovery(hw, sdu)] else []
    {
      hide Called;
      var end := FillDiscovery(outBuf, sdu);
      SourceHead(NAN_MULTICAST, hw, FIXED_BYTES + (AttHead(3, |sdu| + 10) + Descriptor(1, 0, 0x10, sdu)));
      var err := SendFrameRaw(outBuf, end, call, ok);
    }

    /** Sends a beacon and then a discovery frame. The interval bytes that a non-sync beacon
        overwrites are never restored, and the beacon's own stamp holds the discovery frame back
        unless a status comes or 100 ms go by between the two. */
    method SendBeacon(syncFrame: bool, time: Octets, first: Call, ok: bool, second: Call, ok2: bool)
      requires Valid() && |time| == 8 && first.CanBegin(ended, clock) && second.CanBegin(first.t0, first.sent)
      modifies this`lastSent, this`sendErrors, this`log, this`delay, this`ended, this`clock, this`sent,
               outBuf, beaconHead, this`beaconSrc, this`beaconTime, this`beaconMaster, this`stuck
      ensures Valid()
      ensures stuck == (old(stuck) || !syncFrame)
      ensures var open := old(Opens(first));
              var stamp := if !open then if first.before.Some? then None else old(lastSent)
                           else if first.late.Some? then None else Some(first.t0);
              var log1 := if open then Passed(old(log), first) else Tested(old(log), first, false);
              var open2 := !Closed(if second.before.Some? then None else stamp, second.t1);
              && Called(stamp, log1, open2, second)
              && sent == old(sent)
                         + (if open then [Beacon(hw, time, stuck, hw)] else [])
                         + (if open2 then [Discovery(hw, [1])] else [])
    {
      hide Whole, Spaced, SpacedSinceStore, Quiet, LastSent, Beacon, Discovery, Passed, Tested;
      SendBeaconHead(syncFrame, time, first, ok);
      SendDiscovery([1], second, ok2);
    }

    method SendBeaconHead(syncFrame: bool, time: Octets, call: Call, ok: bool)
      requires Valid() && |time| == 8 && call.CanBegin(ended, clock)
      modifies this`lastSent, this`sendErrors, this`log, this`delay, this`ended, this`clock, this`sent, beaconHead,
               this`beaconSrc, this`beaconTime, this`beaconMaster, this`stuck
      ensures Valid() && Called(old(lastSent), old(log), old(Opens(call)), call)
      ensures stuck == (old(stuck) || !syncFrame)
      ensures sent == old(sent) + if old(Opens(call)) then [Beacon(hw, time, stuck, hw)] else []
    {
      hide Whole, Spaced, SpacedSinceStore, Quiet, LastSent, Beacon, Passed, Tested;
      FillBeacon(beaconHead, syncFrame, time, hw, beaconSrc, beaconTime, stuck, beaconMaster);
      stuck := stuck || !syncFrame;
      SourceBeacon(beaconSrc, time, stuck, hw, hw);
      beaconSrc, beaconTime, beaconMaster := hw, time, hw;
      var err := SendFrameRaw(beaconHead, 72, call, ok);
      assert beaconHead[..72] == beaconHead[..];
    }

    /** Sends `sdu` as a follow-up message. */
    method SendFollowup(sdu: Octets, call: Call, ok: bool)
      requires Gated() && outBuf.Length == 4096 && 43 + |sdu| <= 4096 && call.CanBegin(ended, clock)
      modifies this`lastSent, this`sendErrors, this`log, this`delay, this`ended, this`clock, this`sent, outBuf
      ensures Called(old(lastSent), old(log), old(Opens(call)), call)
      ensures sent == old(sent) + if old(Opens(call)) then [Followup(hw, sdu)] else []
    {
      hide Called;
      var end := FillFollowup(outBuf, sdu);
      SourceHead(BROADCAST, hw, AttHead(3, |sdu| + 10) + Descriptor(0x80, 0x80, 0x12, sdu));
      var err := SendFrameRaw(outBuf, end, call, ok);
    }

    /** The TX status of this interface's last frame, between two calls. */
    method OnTxStatus(ghost now: int)
      requires Gated() && clock <= now
      modifies this`lastSent, this`log, this`clock
      ensures Gated() && lastSent == None && log == old(log) + [Status(now)] && clock == now
    {
      hide Whole, LastSent;
      LogArrival(log, delay, ended, clock, Some(now), now);
      lastSent := None;
      log, clock := log + [Status(now)], now;
    }
  }

  // ----- The frames byte by byte

  lemma HeadBytes(dst: Mac, src: Mac, cluster: Octets, rest: Octets)
    requires |cluster| == 2
    ensures var f := ActionHead(dst, src, cluster) + rest;
            && f[..4] == [0xd0, 0, 0, 0] && f[4..10] == dst && f[10..16] == src
            && f[16..20] == [0x50, 0x6f, 0x9a, 0x01] && f[20..22] == cluster
            && f[22..30] == [0, 0, 4, 9, 0x50, 0x6f, 0x9a, 0x13] && f[30..] == rest
  {
  }

  /** A follow-up: to everyone, in the cluster d9 49, with one descriptor that holds the service id of
      DMesh, instance and requestor 0x80, control 0x12, the length and the data. */
  lemma FollowupBytes(src: Mac, sdu: Octets)
    ensures var f, n := Followup(src, sdu), |sdu|;
            && f[..4] == [0xd0, 0, 0, 0] && f[4..10] == [0xff, 0xff, 0xff, 0xff, 0xff, 0xff] && f[10..16] == src
            && f[16..30] == [0x50, 0x6f, 0x9a, 0x01, 0xd9, 0x49, 0, 0, 4, 9, 0x50, 0x6f, 0x9a, 0x13]
            && f[30..33] == [3, (n + 10) % 256, (n + 10) / 256 % 256]
            && f[33..43] == [0x75, 0x94, 0x31, 0x93, 0xea, 0xc9, 0x80, 0x80, 0x12, n % 256]
            && f[43..] == sdu
  {
    var rest := AttHead(3, |sdu| + 10) + Descriptor(0x80, 0x80, 0x12, sdu);
    var f := Followup(src, sdu);
    HeadBytes(BROADCAST, src, CLUSTER, rest);
    hide ActionHead;
    JoinedSlice(f, 16, 20, 22, 30);
    DescriptorBytes(0x80, 0x80, 0x12, sdu, f, 30);
  }

  /** Adjoining slices. */
  lemma JoinedSlice(f: Octets, a: nat, b: nat, c: nat, d: nat)
    requires a <= b <= c <= d <= |f|
    ensures f[a..d] == f[a..b] + f[b..c] + f[c..d]
  {
  }

  lemma DescriptorBytes(instance: Byte, requestor: Byte, control: Byte, sdu: Octets, f: Octets, at: nat)
    requires at <= |f| && f[at..] == AttHead(3, |sdu| + 10) + Descriptor(instance, requestor, control, sdu)
    ensures |f| == at + 13 + |sdu|
    ensures f[at..at + 3] == [3, (|sdu| + 10) % 256, (|sdu| + 10) / 256 % 256]
    ensures f[at + 3..at + 13] == [0x75, 0x94, 0x31, 0x93, 0xea, 0xc9, instance, requestor, control, |sdu| % 256]
    ensures f[at + 13..] == sdu
  {
    var t := f[at..];
    assert f[at..at + 3] == t[..3] && f[at + 3..at + 13] == t[3..13] && f[at + 13..] == t[13..];
  }

  /** A discovery frame: to the NAN multicast address as the code has it, in the same cluster, with the
      descriptor of instance 1 and control 0x10 behind the fixed attributes. */
  lemma DiscoveryBytes(src: Mac, sdu: Octets)
    ensures var f, n := Discovery(src, sdu), |sdu|;
            && f[..4] == [0xd0, 0, 0, 0] && f[4..10] == [0x51, 0x6f, 0x9a, 0x01, 0x00, 0x00] && f[10..16] == src
            && f[16..30] == [0x50, 0x6f, 0x9a, 0x01, 0xd9, 0x49, 0, 0, 4, 9, 0x50, 0x6f, 0x9a, 0x13]
            && f[79..82] == [3, (n + 10) % 256, (n + 10) / 256 % 256]
            && f[82..92] == [0x75, 0x94, 0x31, 0x93, 0xea, 0xc9, 1, 0, 0x10, n % 256]
            && f[92..] == sdu
  {
    var rest := AttHead(3, |sdu| + 10) + Descriptor(1, 0, 0x10, sdu);
    var f := Discovery(src, sdu);
    hide ActionHead;
    DiscoveryHead(src, sdu);
    JoinedSlice(f, 16, 20, 22, 30);
    FixedSlices(f, rest);
    DescriptorBytes(1, 0, 0x10, sdu, f, 79);
  }

  lemma DiscoveryHead(src: Mac, sdu: Octets)
    ensures var f := Discovery(src, sdu);
            && f[..4] == [0xd0, 0, 0, 0] && f[4..10] == NAN_MULTICAST && f[10..16] == src
            && f[16..20] == [0x50, 0x6f, 0x9a, 0x01] && f[20..22] == CLUSTER
            && f[22..30] == [0, 0, 4, 9, 0x50, 0x6f, 0x9a, 0x13]
            && f[30..] == FIXED_BYTES + (AttHead(3, |sdu| + 10) + Descriptor(1, 0, 0x10, sdu))
  {
    HeadBytes(NAN_MULTICAST, src, CLUSTER, FIXED_BYTES + (AttHead(3, |sdu| + 10) + Descriptor(1, 0, 0x10, sdu)));
    hide ActionHead, AttHead, Descriptor;
  }

  /** The three attributes that every discovery frame has in front: capability, availability and
      extension. */
  lemma FixedAttributeBytes(src: Mac, sdu: Octets)
    ensures var f := Discovery(src, sdu);
            && f[30..42] == [0x0f, 9, 0, 0, 1, 0, 4, 1, 0, 0, 0x14, 0]
            && f[42..45] == [0x12, 0x1b, 0]
            && f[45..56] == [0x0b, 0x01, 0x00, 0x16, 0x00, 0x1a, 0x10, 0x18, 0x00, 0x04, 0xfe]
            && f[56..64] == [0xff, 0xff, 0x3f, 0x31, 0x51, 0xff, 0x07, 0x00]
            && f[64..72] == [0x80, 0x20, 0x00, 0x0f, 0x80, 0x01, 0x00, 0x0f]
            && f[72..79] == [0x0e, 4, 0, 1, 0, 2, 2]
  {
    var f := Discovery(src, sdu);
    hide ActionHead, AttHead, Descriptor, Discovery;
    DiscoveryHead(src, sdu);
    FixedSlices(f, AttHead(3, |sdu| + 10) + Descriptor(1, 0, 0x10, sdu));
    AvailabilitySlices(f);
  }

  lemma AvailabilitySlices(f: Octets)
    requires |f| >= 72 && f[42..72] == AVAIL_ATT
    ensures f[42..45] == [0x12, 0x1b, 0]
    ensures f[45..56] == [0x0b, 0x01, 0x00, 0x16, 0x00, 0x1a, 0x10, 0x18, 0x00, 0x04, 0xfe]
    ensures f[56..64] == [0xff, 0xff, 0x3f, 0x31, 0x51, 0xff, 0x07, 0x00]
    ensures f[64..72] == [0x80, 0x20, 0x00, 0x0f, 0x80, 0x01, 0x00, 0x0f]
  {
    AvailabilityTable();
    SliceOf(f, 42, AVAIL_ATT, 0, 3);
    SliceOf(f, 42, AVAIL_ATT, 3, 14);
    SliceOf(f, 42, AVAIL_ATT, 14, 22);
    SliceOf(f, 42, AVAIL_ATT, 22, 30);
  }

  lemma SliceOf(f: Octets, at: nat, part: Octets, a: nat, b: nat)
    requires at + |part| <= |f| && f[at..at + |part|] == part && a <= b <= |part|
    ensures f[at + a..at + b] == part[a..b]
  {
    var w := f[at..at + |part|];
    assert forall i :: a <= i < b ==> w[i] == f[at + i];
  }

  lemma AvailabilityTable()
    ensures |AVAIL_ATT| == 30 && AVAIL_ATT[0..3] == [0x12, 0x1b, 0]
    ensures AVAIL_ATT[3..14] == [0x0b, 0x01, 0x00, 0x16, 0x00, 0x1a, 0x10, 0x18, 0x00, 0x04, 0xfe]
    ensures AVAIL_ATT[14..22] == [0xff, 0xff, 0x3f, 0x31, 0x51, 0xff, 0x07, 0x00]
    ensures AVAIL_ATT[22..30] == [0x80, 0x20, 0x00, 0x0f, 0x80, 0x01, 0x00, 0x0f]
  {
    var b: Octets := [0x0b, 0x01, 0x00, 0x16, 0x00, 0x1a, 0x10, 0x18, 0x00, 0x04, 0xfe];
    var c: Octets := [0xff, 0xff, 0x3f, 0x31, 0x51, 0xff, 0x07, 0x00];
    var d: Octets := [0x80, 0x20, 0x00, 0x0f, 0x80, 0x01, 0x00, 0x0f];
    assert AVAILABILITY == b + c + d;
  }

  lemma FixedSlices(f: Octets, rest: Octets)
    requires |f| >= 30 && f[30..] == FIXED_BYTES + rest
    ensures |f| >= 79 && f[30..42] == CAP_ATT && f[42..72] == AVAIL_ATT && f[72..79] == EXT_ATT && f[79..] == rest
  {
    FourParts(CAP_ATT, AVAIL_ATT, EXT_ATT, rest);
    var t := f[30..];
    assert t == CAP_ATT + AVAIL_ATT + EXT_ATT + rest;
    assert f[30..42] == t[..12] && f[42..72] == t[12..42] && f[72..79] == t[42..49] && f[79..] == t[49..];
  }

  /** A beacon, its interval 0x0200 or 0x0080 with the low byte first. */
  lemma BeaconBytes(src: Mac, time: Octets, stuck: bool, master: Mac)
    requires |time| == 8
    ensures var f := Beacon(src, time, stuck, master);
            && f[..10] == [0x80, 0, 0, 0, 0xff, 0xff, 0xff, 0xff, 0xff, 0xff] && f[10..16] == src
            && f[16..24] == [0x50, 0x6f, 0x9a, 0x01, 0xd9, 0x49, 0, 0] && f[24..32] == time
            && f[32..34] == (if stuck then [0x80, 0x00] else [0x00, 0x02])
            && f[34..42] == [0x20, 4, 0xdd, 34, 0x50, 0x6f, 0x9a, 0x13]
            && f[42..50] == [0, 2, 0, 140, 0xfe, 1, 13, 0] && f[50..56] == master
            && f[56..63] == [0xfe, 140, 0, 0, 0, 0, 0]
            && f[63..72] == [2, 6, 0, 0x75, 0x94, 0x31, 0x93, 0xea, 0xc9]
  {
    var f := Beacon(src, time, stuck, master);
    BeaconAttsBytes(master);
    hide BeaconAtts;
    assert f[42..] == BeaconAtts(master);
    hide Beacon;
    SliceOf(f, 42, BeaconAtts(master), 0, 8);
    SliceOf(f, 42, BeaconAtts(master), 8, 14);
    SliceOf(f, 42, BeaconAtts(master), 14, 21);
    SliceOf(f, 42, BeaconAtts(master), 21, 30);
  }

  lemma BeaconAttsBytes(master: Mac)
    ensures var b := BeaconAtts(master);
            && b[0..8] == [0, 2, 0, 140, 0xfe, 1, 13, 0] && b[8..14] == master
            && b[14..21] == [0xfe, 140, 0, 0, 0, 0, 0]
            && b[21..30] == [2, 6, 0, 0x75, 0x94, 0x31, 0x93, 0xea, 0xc9]
  {
  }

  // ----- What the frames parse to

  lemma HeadOfAtt(id: Byte, n: nat)
    requires n < 65536
    ensures AttHead(id, n) == Header(Wide, id, n)
  {
  }

  lemma DescriptorParses(instance: Byte, requestor: Byte, control: Byte, sdu: Octets)
    requires |sdu| + 10 < 65536
    ensures var d := Descriptor(instance, requestor, control, sdu);
            Decode(Wide, AttHead(3, |sdu| + 10) + d) == Some([IE(3, d)])
  {
    var d := Descriptor(instance, requestor, control, sdu);
    HeadOfAtt(3, |d|);
    DecodeSingle(Wide, IE(3, d));
  }

  lemma AvailabilityThen(rest: Octets)
    ensures Decode(Wide, AVAIL_ATT + (EXT_ATT + rest)) ==
            Onto([IE(0x12, AVAILABILITY)] + [IE(0x0e, EXTENSION)], Decode(Wide, rest))
  {
    assert AVAIL_ATT == Header(Wide, 0x12, |AVAILABILITY|) + AVAILABILITY;
    assert EXT_ATT == Header(Wide, 0x0e, |EXTENSION|) + EXTENSION;
    DecodeCons(Wide, IE(0x12, AVAILABILITY), EXT_ATT + rest);
    DecodeCons(Wide, IE(0x0e, EXTENSION), rest);
    OntoOnto([IE(0x12, AVAILABILITY)], [IE(0x0e, EXTENSION)], Decode(Wide, rest));
  }

  lemma FixedThen(rest: Octets)
    ensures Decode(Wide, FIXED_BYTES + rest) == Onto(FIXED_ATTS, Decode(Wide, rest))
  {
    FourParts(CAP_ATT, AVAIL_ATT, EXT_ATT, rest);
    ThreeParts(AVAIL_ATT, EXT_ATT, rest);
    assert CAP_ATT == Header(Wide, 0x0f, |DEVICE_CAP|) + DEVICE_CAP;
    DecodeCons(Wide, IE(0x0f, DEVICE_CAP), AVAIL_ATT + (EXT_ATT + rest));
    AvailabilityThen(rest);
    var others := [IE(0x12, AVAILABILITY)] + [IE(0x0e, EXTENSION)];
    OntoOnto([IE(0x0f, DEVICE_CAP)], others, Decode(Wide, rest));
    assert [IE(0x0f, DEVICE_CAP)] + others == FIXED_ATTS;
  }

  lemma ThreeParts(a: Octets, b: Octets, c: Octets)
    ensures a + b + c == a + (b + c)
  {
  }

  /** From byte 30 a discovery frame parses to its four attributes, with the payload intact. */
  lemma DiscoveryParses(src: Mac, sdu: Octets)
    requires |sdu| + 10 < 65536
    ensures Decode(Wide, Discovery(src, sdu)[30..]) == Some(DiscoveryAtts(sdu))
  {
    var rest := AttHead(3, |sdu| + 10) + Descriptor(1, 0, 0x10, sdu);
    assert Discovery(src, sdu)[30..] == FIXED_BYTES + rest;
    FixedThen(rest);
    DescriptorParses(1, 0, 0x10, sdu);
  }

  /** From byte 30 a follow-up frame parses to one service descriptor around the payload. */
  lemma FollowupParses(src: Mac, sdu: Octets)
    requires |sdu| + 10 < 65536
    ensures Decode(Wide, Followup(src, sdu)[30..]) == Some(FollowupAtts(sdu))
  {
    assert Followup(src, sdu)[30..] == AttHead(3, |sdu| + 10) + Descriptor(0x80, 0x80, 0x12, sdu);
    DescriptorParses(0x80, 0x80, 0x12, sdu);
  }

  /** The elements of a beacon: one vendor element, which is the NAN tag and three attributes, the
      second of which names the master. */
  lemma BeaconParses(src: Mac, time: Octets, stuck: bool, master: Mac)
    requires |time| == 8
    ensures Decode(Narrow, Beacon(src, time, stuck, master)[36..]) == Some([IE(0xdd, NAN_TAG + BeaconAtts(master))])
    ensures Decode(Wide, BeaconAtts(master)) ==
            Some([IE(0, [140, 0xfe]), IE(1, master + [0xfe, 140, 0, 0, 0, 0, 0]), IE(2, SVC_ID)])
  {
    var ie := IE(0xdd, NAN_TAG + BeaconAtts(master));
    DecodeSingle(Narrow, ie);
    BeaconElement(src, time, stuck, master);
    BeaconAttsParse(master);
  }

  lemma BeaconElement(src: Mac, time: Octets, stuck: bool, master: Mac)
    requires |time| == 8
    ensures Beacon(src, time, stuck, master)[36..] == Header(Narrow, 0xdd, 34) + (NAN_TAG + BeaconAtts(master))
  {
  }

  lemma BeaconAttsParse(master: Mac)
    ensures Decode(Wide, BeaconAtts(master)) ==
            Some([IE(0, [140, 0xfe]), IE(1, master + [0xfe, 140, 0, 0, 0, 0, 0]), IE(2, SVC_ID)])
  {
    hide Decode;
    var a, b := IE(0, [140, 0xfe]), IE(1, master + [0xfe, 140, 0, 0, 0, 0, 0]);
    var second := Header(Wide, 1, 13) + b.data + ([2, 6, 0] + SVC_ID);
    DecodeCons(Wide, a, second);
    DecodeCons(Wide, b, [2, 6, 0] + SVC_ID);
    ServiceListParses();
    ThreeParts([0, 2, 0, 140, 0xfe], Header(Wide, 1, 13) + b.data, [2, 6, 0] + SVC_ID);
    assert Header(Wide, 0, 2) + a.data == [0, 2, 0, 140, 0xfe];
    assert Header(Wide, 1, 13) + b.data == [1, 13, 0] + master + [0xfe, 140, 0, 0, 0, 0, 0];
    assert [a] + ([b] + [IE(2, SVC_ID)]) == [a, b, IE(2, SVC_ID)];
  }

  lemma ServiceListParses()
    ensures Decode(Wide, [2, 6, 0] + SVC_ID) == Some([IE(2, SVC_ID)])
  {
    assert [2, 6, 0] == Header(Wide, 2, 6);
    DecodeSingle(Wide, IE(2, SVC_ID));
  }
}
