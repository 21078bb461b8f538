/**
 The ESP32 side of NAN, in C: its senders, the checks that pick NAN frames out of the sniffer, and
 the attribute walk of a received action frame, which writes into the frame it walks.
 */
module NanEsp {
  import opened Bytes
  import opened Tlv
  import opened NanFrames

  const ACTION_START := 30
  const NAN_ID: Byte := 1

  /** The cluster in the header template, which every frame overwrites. */
  const FIRST_NET: Octets := [5, 1]

  // ----- The senders

  /** Data longer than 255 bytes is cut. */
  function Cut(data: Octets): (d: Octets)
    ensures |d| <= 255
  {
    if |data| > 255 then data[..255] else data
  }

  function MessageFrame(dst: Mac, src: Mac, net: Octets, instance: Byte, data: Octets): Octets
    requires |net| == 2
  {
    ActionHead(dst, src, net) + (AttHead(3, |Cut(data)| + 10) + Descriptor(NAN_ID, instance, 0x12, Cut(data)))
  }

  /** The sixteen bytes every publication carries. */
  const PUBLISHED: Octets := [
    0x31, 0x32, 0x33, 0x34, 0x35, 0x36, 0x37, 0x38, 0x30, 0x30, 0x30, 0x30, 0x57, 0x78, 0x68, 0x37]

  const PUBLISH_ATT: Octets := [3, 0x1a, 0] + SVC_ID + [NAN_ID, 0, 0x10, 0x10] + PUBLISHED

  function PublishFrame(src: Mac, net: Octets): Octets
    requires |net| == 2
  {
    ActionHead(BROADCAST, src, net) + (FIXED_BYTES + PUBLISH_ATT)
  }

  /** `aware` and the send buffer, as far as the senders use them. */
  class Sender {
    var mymac: Mac
    var nanNet: Octets
    const sendBuffer: array<Byte>

    /** The frames given to the radio. */
    ghost var sent: seq<Octets>

    constructor (mac: Mac)
      ensures Valid() && fresh(sendBuffer) && sent == [] && mymac == mac && nanNet == [0, 0]
    {
      mymac, nanNet, sent := mac, [0, 0], [];
      sendBuffer := new Byte[512](_ => 0);
    }

    ghost predicate Valid()
      reads this
    {
      |nanNet| == 2 && sendBuffer.Length == 512
    }

    method NanSendNow(dstMac: Mac, instanceId: Byte, data: Octets)
      requires Valid()
      modifies this`sent, sendBuffer
      ensures sent == old(sent) + [MessageFrame(dstMac, mymac, nanNet, instanceId, data)]
    {
      var len := if |data| > 255 then 255 else |data|;
      FillHead(dstMac);
      var i := Write(sendBuffer, 30, AttHead(3, len + 6 + 4));
      i := Write(sendBuffer, i, SVC_ID + [NAN_ID, instanceId, 0x12, len]);
      i := Write(sendBuffer, i, data[..len]);
      MessageParts(dstMac, mymac, nanNet, instanceId, data, len);
      sent := sent + [sendBuffer[..i]];
    }

    method NanSendPublish()
      requires Valid()
      modifies this`sent, sendBuffer
      ensures sent == old(sent) + [PublishFrame(mymac, nanNet)]
    {
      FillHead(BROADCAST);
      var off := Write(sendBuffer, 30, FIXED_BYTES);
      off := Write(sendBuffer, off, PUBLISH_ATT);
      ThreeParts(ActionHead(BROADCAST, mymac, nanNet), FIXED_BYTES, PUBLISH_ATT);
      sent := sent + [sendBuffer[..off]];
    }

    /** The header template, with destination, source and cluster copied over it. */
    method FillHead(dst: Mac)
      requires Valid()
      modifies sendBuffer
      ensures sendBuffer[..30] == ActionHead(dst, mymac, nanNet)
    {
      ghost var rest := sendBuffer[..][30..];
      PutFirst(sendBuffer[..], ActionHead(BROADCAST, ZERO_MAC, FIRST_NET));
      Copy(sendBuffer, 0, ActionHead(BROADCAST, ZERO_MAC, FIRST_NET));
      HeadPatches(dst, mymac, nanNet, rest);
      Copy(sendBuffer, 4, dst);
      Copy(sendBuffer, 10, mymac);
      Copy(sendBuffer, 20, nanNet);
      assert sendBuffer[..] == ActionHead(dst, mymac, nanNet) + rest;
    }
  }

  lemma PutFirst(s: Octets, p: Octets)
    requires |p| <= |s|
    ensures Put(s, 0, p) == p + s[|p|..]
  {
  }

  lemma HeadPatches(dst: Mac, src: Mac, net: Octets, rest: Octets)
    requires |net| == 2
    ensures Put(Put(Put(ActionHead(BROADCAST, ZERO_MAC, FIRST_NET) + rest, 4, dst), 10, src), 20, net)
            == ActionHead(dst, src, net) + rest
  {
    PatchesDst(dst, ZERO_MAC, FIRST_NET, rest);
    PatchesSrc(dst, src, FIRST_NET, rest);
    PatchesNet(dst, src, net, rest);
  }

  lemma PatchesDst(dst: Mac, src: Mac, net: Octets, rest: Octets)
    requires |net| == 2
    ensures Put(ActionHead(BROADCAST, src, net) + rest, 4, dst) == ActionHead(dst, src, net) + rest
  {
  }

  lemma PatchesSrc(dst: Mac, src: Mac, net: Octets, rest: Octets)
    requires |net| == 2
    ensures Put(ActionHead(dst, ZERO_MAC, net) + rest, 10, src) == ActionHead(dst, src, net) + rest
  {
  }

  lemma PatchesNet(dst: Mac, src: Mac, net: Octets, rest: Octets)
    requires |net| == 2
    ensures Put(ActionHead(dst, src, FIRST_NET) + rest, 20, net) == ActionHead(dst, src, net) + rest
  {
  }

  lemma MessageParts(dst: Mac, src: Mac, net: Octets, instance: Byte, data: Octets, len: nat)
    requires |net| == 2 && len == if |data| > 255 then 255 else |data|
    ensures MessageFrame(dst, src, net, instance, data) ==
            ActionHead(dst, src, net) + AttHead(3, len + 10) + (SVC_ID + [NAN_ID, instance, 0x12, len]) + data[..len]
  {
    var head, mark, text := AttHead(3, len + 10), SVC_ID + [NAN_ID, instance, 0x12, len], data[..len];
    assert text == Cut(data) && len % 256 == len;
    assert Descriptor(NAN_ID, instance, 0x12, Cut(data)) == mark + text;
    FourParts(ActionHead(dst, src, net), head, mark, text);
    ThreeParts(head, mark, text);
  }

  // ----- Telling NAN frames from others

  datatype Kind = NotManagement | OtherNetwork | BeaconFrame(sync: bool) | OtherSubtype | NotNan | NotDiscovery | Daf

  /** The checks of the sniffer callback, on a receive buffer of at least 34 bytes. */
  function Classify(management: bool, frame: Octets): Kind
    requires |frame| >= 34
  {
    if !management then NotManagement
    else if frame[16] != 0x50 || frame[17] != 0x6f || frame[18] != 0x9a then OtherNetwork
    else if frame[0] == 0x80 then BeaconFrame(frame[32] == 0 && frame[33] == 2)
    else if frame[0] != 0xd0 then OtherSubtype
    else if frame[24] != 4 || frame[25] != 9 || frame[26] != 0x50 || frame[27] != 0x6f || frame[28] != 0x9a then NotNan
    else if frame[29] != 19 then NotDiscovery
    else Daf
  }

  /** A management frame whose BSSID starts with 50 6F 9A. */
  predicate IsNanBssid(management: bool, frame: Octets)
    requires |frame| >= 34
  {
    management && frame[16..19] == [0x50, 0x6f, 0x9a]
  }

  /** One that is a public action frame of the NAN vendor id. */
  predicate IsNanAction(management: bool, frame: Octets)
    requires |frame| >= 34
  {
    IsNanBssid(management, frame) && frame[0] == 0xd0 && frame[24..29] == [0x04, 0x09, 0x50, 0x6f, 0x9a]
  }

  /** And of those, the service discovery frames. */
  predicate IsDiscovery(management: bool, frame: Octets)
    requires |frame| >= 34
  {
    IsNanAction(management, frame) && frame[29] == 0x13
  }

  /** What each kind stands for; a sync beacon is one of interval 0x0200. */
  lemma KindExactly(management: bool, frame: Octets)
    requires |frame| >= 34
    ensures var k, nan := Classify(management, frame), IsNanBssid(management, frame);
            && (k == NotManagement <==> !management)
            && (k == OtherNetwork <==> management && !nan)
            && (k == BeaconFrame(true) <==> nan && frame[0] == 0x80 && frame[32..34] == [0x00, 0x02])
            && (k == BeaconFrame(false) <==> nan && frame[0] == 0x80 && frame[32..34] != [0x00, 0x02])
            && (k == OtherSubtype <==> nan && frame[0] != 0x80 && frame[0] != 0xd0)
            && (k == NotNan <==> nan && frame[0] == 0xd0 && !IsNanAction(management, frame))
            && (k == NotDiscovery <==> IsNanAction(management, frame) && frame[29] != 0x13)
            && (k == Daf <==> IsDiscovery(management, frame))
  {
    ThreeAt(frame, 16);
    TwoAt(frame, 32);
    FiveAt(frame, 24);
  }

  lemma TwoAt(frame: Octets, at: nat)
    requires at + 2 <= |frame|
    ensures frame[at..at + 2] == [frame[at], frame[at + 1]]
  {
  }

  lemma ThreeAt(frame: Octets, at: nat)
    requires at + 3 <= |frame|
    ensures frame[at..at + 3] == [frame[at], frame[at + 1], frame[at + 2]]
  {
  }

  lemma FiveAt(frame: Octets, at: nat)
    requires at + 5 <= |frame|
    ensures frame[at..at + 5] == [frame[at], frame[at + 1], frame[at + 2], frame[at + 3], frame[at + 4]]
  {
  }

  // ----- The attribute walk

  /** How a walk ends: at the end of the body, at an attribute that is empty or too long, or with
      an access outside the receive buffer. */
  datatype End = Finished | Overflow | OutOfBounds

  /** What a walk saw: attributes in order, messages, publications and subscriptions. */
  datatype Walked = Walked(visits: seq<IE>, messages: seq<Octets>, pubs: nat, subs: nat, end: End)

  /** `len - 4`, in unsigned 32-bit arithmetic. */
  function Limit(len: nat): nat {
    (len - 4) % 0x1_0000_0000
  }

  function Length16At(frame: Octets, at: nat): nat
    requires at + 3 <= |frame|
  {
    var lo: int, hi: int := frame[at + 1], frame[at + 2];
    lo + 256 * hi
  }

  function Visit(frame: Octets, at: nat): IE
    requires at + 3 <= |frame| && at + 3 + Length16At(frame, at) <= |frame|
  {
    IE(frame[at], frame[at + 3..at + 3 + Length16At(frame, at)])
  }

  function Join(a: Walked, b: Walked): Walked {
    Walked(a.visits + b.visits, a.messages + b.messages, a.pubs + b.pubs, a.subs + b.subs, b.end)
  }

  const NOTHING := Walked([], [], 0, 0, Finished)

  /** One turn of the walk: it stops, it stops in the middle of an attribute, or it goes on behind
      one, with the frame as the turn leaves it. */
  datatype Turn = Stop(end: End) | Broken(visit: IE) | Go(seen: Walked, frame: Octets, after: nat)

  function TurnAt(frame: Octets, len: nat, next: nat): (t: Turn)
    requires len <= |frame| && next < Limit(len)
    ensures t.Go? ==> next + 4 <= t.after <= len && |t.frame| == |frame|
  {
    if next + 3 > |frame| then Stop(OutOfBounds)
    else
      var tl := Length16At(frame, next);
      if tl == 0 || next + 3 + tl > len then Stop(Overflow)
      else if frame[next] == 3 then DescriptorTurn(frame, Visit(frame, next), next + 3, next + 3 + tl)
      else Go(Walked([Visit(frame, next)], [], 0, 0, Finished), frame, next + 3 + tl)
  }

  const PING: Octets := Ascii("PING")

  /** A service descriptor at `i`. A follow-up's text is what its inner length marks off, and the
      byte behind the text becomes zero. The reply to a "PING" copies as many bytes as the text has
      from behind the word, not from the start of the text. */
  function DescriptorTurn(frame: Octets, v: IE, i: nat, after: nat): (t: Turn)
    ensures t.Go? ==> t.after == after && |t.frame| == |frame|
  {
    if i + 10 > |frame| then Broken(v)
    else
      var control, tlen: int := frame[i + 8], frame[i + 9];
      if control == 0x11 then Go(Walked([v], [], 0, 1, Finished), frame, after)
      else if control == 0x10 then Go(Walked([v], [], 1, 0, Finished), frame, after)
      else if i + 14 > |frame| then Broken(v)
      else if frame[i + 10..i + 14] == PING && i + 14 + tlen > |frame| then Broken(v)
      else if i + 10 + tlen >= |frame| then Broken(v)
      else Go(Walked([v], [frame[i + 10..i + 10 + tlen]], 0, 0, Finished), frame[i + 10 + tlen := 0], after)
  }

  function Walk(frame: Octets, len: nat, next: nat): Walked
    requires len <= |frame|
    decreases Limit(len) - next
  {
    if next >= Limit(len) then NOTHING
    else
      match TurnAt(frame, len, next)
      case Stop(end) => Walked([], [], 0, 0, end)
      case Broken(v) => Walked([v], [], 0, 0, OutOfBounds)
      case Go(seen, f, after) => Join(seen, Walk(f, len, after))
  }

  /** The counters of `aware` that received frames move. */
  class Receiver {
    var subReceived: nat
    var pubReceived: nat
    var nanMessagesIn: nat
    var capPackets: nat
    var nanPackets: nat

    constructor ()
      ensures subReceived == pubReceived == nanMessagesIn == capPackets == nanPackets == 0
    {
      subReceived, pubReceived, nanMessagesIn, capPackets, nanPackets := 0, 0, 0, 0, 0;
    }

    /** The sniffer callback: exactly the service discovery frames reach the walk, and only the public
        action frames with the NAN vendor id are counted. */
    method Sniff(management: bool, frame: array<Byte>, len: nat) returns (k: Kind, r: Option<Walked>)
      requires 34 <= frame.Length && len <= frame.Length
      modifies this, frame
      ensures k == Classify(management, old(frame[..]))
      ensures r == if IsDiscovery(management, old(frame[..])) then Some(Walk(old(frame[..]), len, 30)) else None
      ensures r.None? ==> frame[..] == old(frame[..])
      ensures capPackets == old(capPackets) + 1
      ensures nanPackets == old(nanPackets) + if IsNanAction(management, old(frame[..])) then 1 else 0
      ensures subReceived == old(subReceived) + if r.Some? then r.value.subs else 0
      ensures pubReceived == old(pubReceived) + if r.Some? then r.value.pubs else 0
      ensures nanMessagesIn == old(nanMessagesIn) + if r.Some? then |r.value.messages| else 0
    {
      KindExactly(management, frame[..]);
      capPackets := capPackets + 1;
      if !management {
        return NotManagement, None;
      }
      if frame[16] != 0x50 || frame[17] != 0x6f || frame[18] != 0x9a {
        return OtherNetwork, None;
      }
      if frame[0] == 0x80 {
        return BeaconFrame(frame[32] == 0 && frame[33] == 2), None;
      }
      if frame[0] != 0xd0 {
        return OtherSubtype, None;
      }
      if frame[24] != 4 || frame[25] != 9 || frame[26] != 0x50 || frame[27] != 0x6f || frame[28] != 0x9a {
        return NotNan, None;
      }
      nanPackets := nanPackets + 1;
      if frame[29] != 19 {
        return NotDiscovery, None;
      }
      var walked := HandleDAF(frame, len);
      return Daf, Some(walked);
    }

    /** `frame` is the receive buffer, of which the first `len` bytes are the frame. */
    method HandleDAF(frame: array<Byte>, len: nat) returns (r: Walked)
      requires len <= frame.Length
      modifies this`subReceived, this`pubReceived, this`nanMessagesIn, frame
      ensures r == Walk(old(frame[..]), len, ACTION_START)
      ensures subReceived == old(subReceived) + r.subs && pubReceived == old(pubReceived) + r.pubs
      ensures nanMessagesIn == old(nanMessagesIn) + |r.messages|
    {
      var next := ACTION_START;
      var seen := NOTHING;
      JoinNothing(Walk(frame[..], len, next));
      while next < Limit(len)
        invariant Join(seen, Walk(frame[..], len, next)) == Walk(old(frame[..]), len, ACTION_START)
        invariant subReceived == old(subReceived) + seen.subs && pubReceived == old(pubReceived) + seen.pubs
        invariant nanMessagesIn == old(nanMessagesIn) + |seen.messages|
        decreases Limit(len) - next
      {
        ghost var before := frame[..];
        var turn := HandleAttribute(frame, len, next);
        match turn
        case Stop(end) =>
          return Join(seen, Walked([], [], 0, 0, end));
        case Broken(v) =>
          return Join(seen, Walked([v], [], 0, 0, OutOfBounds));
        case Go(one, _, after) =>
          JoinJoin(seen, one, Walk(frame[..], len, after));
          seen := Join(seen, one);
          next := after;
      }
      JoinNothing(seen);
      return Join(seen, NOTHING);
    }

    /** The body of the walk's loop. */
    method HandleAttribute(frame: array<Byte>, len: nat, next: nat) returns (turn: Turn)
      requires len <= frame.Length && next < Limit(len)
      modifies this`subReceived, this`pubReceived, this`nanMessagesIn, frame
      ensures turn == TurnAt(old(frame[..]), len, next)
      ensures if turn.Go? then
                && frame[..] == turn.frame
                && subReceived == old(subReceived) + turn.seen.subs
                && pubReceived == old(pubReceived) + turn.seen.pubs
                && nanMessagesIn == old(nanMessagesIn) + |turn.seen.messages|
              else unchanged(this) && frame[..] == old(frame[..])
    {
      if next + 3 > frame.Length {
        return Stop(OutOfBounds);
      }
      var i := next;
      var tag := frame[i];
      i := i + 1;
      var tl: int := frame[i];
      i := i + 1;
      var high: int := frame[i];
      tl := 256 * high + tl;
      i := i + 1;
      if tl == 0 || i + tl > len {
        return Stop(Overflow);
      }
      var v := IE(tag, frame[i..i + tl]);
      assert v == Visit(frame[..], next);
      if tag == 3 {
        turn := HandleDescriptor(frame, v, i, i + tl);
      } else {
        turn := Go(Walked([v], [], 0, 0, Finished), frame[..], i + tl);
      }
    }

    method HandleDescriptor(frame: array<Byte>, v: IE, from: nat, after: nat) returns (turn: Turn)
      modifies this`subReceived, this`pubReceived, this`nanMessagesIn, frame
      ensures turn == DescriptorTurn(old(frame[..]), v, from, after)
      ensures if turn.Go? then
                && frame[..] == turn.frame
                && subReceived == old(subReceived) + turn.seen.subs
                && pubReceived == old(pubReceived) + turn.seen.pubs
                && nanMessagesIn == old(nanMessagesIn) + |turn.seen.messages|
              else unchanged(this) && frame[..] == old(frame[..])
    {
      if from + 10 > frame.Length {
        return Broken(v);
      }
      var i := from + 6 + 2;
      var serviceControl := frame[i];
      i := i + 1;
      var tlen: int := frame[i];
      i := i + 1;
      if serviceControl == 0x11 {
        subReceived := subReceived + 1;
        return Go(Walked([v], [], 0, 1, Finished), frame[..], after);
      } else if serviceControl == 0x10 {
        pubReceived := pubReceived + 1;
        return Go(Walked([v], [], 1, 0, Finished), frame[..], after);
      } else {
        if i + 4 > frame.Length {
          return Broken(v);
        }
        if frame[i..i + 4] == PING && i + 4 + tlen > frame.Length {
          return Broken(v);
        }
        if i + tlen >= frame.Length {
          return Broken(v);
        }
        nanMessagesIn := nanMessagesIn + 1;
        var message := frame[i..i + tlen];
        frame[i + tlen] := 0;
        assert frame[..] == old(frame[..])[i + tlen := 0];
        return Go(Walked([v], [message], 0, 0, Finished), frame[..], after);
      }
    }
  }

  lemma JoinNothing(w: Walked)
    ensures Join(NOTHING, w) == w
    ensures w.end == Finished ==> Join(w, NOTHING) == w
  {
    assert [] + w.visits == w.visits == w.visits + [] && [] + w.messages == w.messages == w.messages + [];
  }

  lemma JoinJoin(a: Walked, b: Walked, c: Walked)
    ensures Join(a, Join(b, c)) == Join(Join(a, b), c)
  {
    assert a.visits + (b.visits + c.visits) == a.visits + b.visits + c.visits;
    assert a.messages + (b.messages + c.messages) == a.messages + b.messages + c.messages;
  }

  // ----- The walk against the Go parser

  predicate IsFollowup(ie: IE) {
    ie.id == 3 && |ie.data| > 8 && ie.data[8] != 0x10 && ie.data[8] != 0x11
  }

  /** Every service descriptor's inner length is its own length minus ten. */
  ghost predicate WellFormed(ies: seq<IE>)
    ensures WellFormed(ies) ==> Encodable(Wide, ies)
  {
    ies == [] || (Fits(Wide, ies[0]) && (ies[0].id == 3 ==> Marked(ies[0])) && WellFormed(ies[1..]))
  }

  predicate Marked(ie: IE) {
    |ie.data| >= 10 && ie.data[9] == |ie.data| - 10
  }

  /** What one attribute of a well-formed body adds to a walk. */
  function SeenOf(ie: IE): Walked {
    Walked([ie], if IsFollowup(ie) && |ie.data| >= 10 then [ie.data[10..]] else [],
           if ie.id == 3 && |ie.data| > 8 && ie.data[8] == 0x10 then 1 else 0,
           if ie.id == 3 && |ie.data| > 8 && ie.data[8] == 0x11 then 1 else 0, Finished)
  }

  /** The texts of the follow-ups, in order. */
  function Texts(ies: seq<IE>): seq<Octets> {
    if ies == [] then [] else SeenOf(ies[0]).messages + Texts(ies[1..])
  }

  /** What is behind the first attribute once that was handled: the zero behind a follow-up's text
      falls on the next tag. */
  function Behind(ies: seq<IE>): (r: seq<IE>)
    requires ies != []
    ensures |r| == |ies| - 1 && forall i :: 0 <= i < |r| ==> r[i].data == ies[i + 1].data
  {
    if IsFollowup(ies[0]) && |ies| > 1 then [IE(0, ies[1].data)] + ies[2..] else ies[1..]
  }

  /** The attributes as the walk finds them. */
  function Found(ies: seq<IE>): (r: seq<IE>)
    ensures |r| == |ies|
    ensures forall i :: 0 <= i < |r| ==> r[i].data == ies[i].data
    decreases |ies|
  {
    if ies == [] then [] else [ies[0]] + Found(Behind(ies))
  }

  /** No tag behind a follow-up is other than zero. */
  predicate Undisturbed(ies: seq<IE>) {
    forall i :: 0 <= i < |ies| - 1 && IsFollowup(ies[i]) ==> ies[i + 1].id == 0
  }

  /** The first attribute leaves the tag behind it alone. */
  predicate LeavesNext(ies: seq<IE>) {
    |ies| > 1 && IsFollowup(ies[0]) ==> ies[1].id == 0
  }

  lemma BehindSame(ies: seq<IE>)
    requires ies != []
    ensures Behind(ies) == ies[1..] <==> LeavesNext(ies)
    ensures !LeavesNext(ies) ==> Behind(ies)[0] != ies[1]
  {
    if |ies| > 1 {
      assert ies[1..] == [ies[1]] + ies[2..];
    }
  }

  lemma UndisturbedSplit(ies: seq<IE>)
    requires ies != []
    ensures Undisturbed(ies) <==> LeavesNext(ies) && Undisturbed(ies[1..])
  {
    hide IsFollowup;
    assert forall i :: 0 <= i < |ies| - 1 ==> ies[1..][i] == ies[i + 1];
  }

  lemma FoundNext(ies: seq<IE>)
    requires ies != []
    ensures Found(ies)[0] == ies[0] && Found(ies)[1..] == Found(Behind(ies))
    ensures Found(ies) == [ies[0]] + Found(Behind(ies))
  {
  }

  lemma {:induction false} FoundSame(ies: seq<IE>)
    ensures Found(ies) == ies <==> Undisturbed(ies)
    decreases |ies|
  {
    if ies != [] {
      FoundNext(ies);
      BehindSame(ies);
      UndisturbedSplit(ies);
      FoundSame(Behind(ies));
      if !LeavesNext(ies) {
        FoundNext(Behind(ies));
      }
      hide Found, Undisturbed, LeavesNext, Behind;
      assert Found(ies) == ies <==> Found(Behind(ies)) == ies[1..];
    }
  }

  function Expected(ies: seq<IE>): Walked {
    if ies == [] then NOTHING
    else if ies[0].data == [] then Walked([], [], 0, 0, Overflow)
    else Join(SeenOf(ies[0]), Expected(ies[1..]))
  }

  lemma AttributeAt(frame: Octets, next: nat, ie: IE)
    requires Fits(Wide, ie) && At(frame, next, Header(Wide, ie.id, |ie.data|) + ie.data)
    ensures frame[next] == ie.id && Length16At(frame, next) == |ie.data|
    ensures Visit(frame, next) == ie
  {
    var h := Header(Wide, ie.id, |ie.data|);
    AtParts(frame, next, h, ie.data);
    assert frame[next] == frame[next..next + 3][0] && frame[next + 1] == frame[next..next + 3][1];
    assert frame[next + 2] == frame[next..next + 3][2];
  }

  lemma OneTurn(frame: Octets, len: nat, next: nat, ie: IE)
    requires len <= |frame| && next + 3 + |ie.data| <= len - 4 && len < 0x1_0000_0000
    requires Fits(Wide, ie) && At(frame, next, Header(Wide, ie.id, |ie.data|) + ie.data)
    requires ie.data != [] && (ie.id == 3 ==> Marked(ie))
    ensures var after := next + 3 + |ie.data|;
            TurnAt(frame, len, next) == Go(SeenOf(ie), if IsFollowup(ie) then frame[after := 0] else frame, after)
  {
    AttributeAt(frame, next, ie);
    if ie.id == 3 {
      var i, after := next + 3, next + 3 + |ie.data|;
      assert frame[i + 8] == frame[i..after][8] == ie.data[8];
      assert frame[i + 9] == frame[i..after][9] == ie.data[9];
      assert frame[i + 10..after] == frame[i..after][10..] == ie.data[10..];
    }
  }

  /** The body that starts at `next` encodes `ies`, in front of a four-byte checksum. */
  ghost predicate Ahead(frame: Octets, len: nat, next: nat, ies: seq<IE>) {
    && 4 <= len <= |frame| && len < 0x1_0000_0000 && WellFormed(ies)
    && At(frame, next, Encode(Wide, ies)) && next + |Encode(Wide, ies)| == len - 4
  }

  /** The walk over a well-formed body finds the attributes up to the first empty one, where it
      gives up. */
  lemma {:induction false} WalkOfEncoded(frame: Octets, len: nat, next: nat, ies: seq<IE>)
    requires Ahead(frame, len, next, ies)
    ensures len <= |frame| && Walk(frame, len, next) == Expected(Found(ies))
    decreases |ies|
  {
    hide TurnAt, Walk, Behind, Found, Expected, WellFormed, At;
    if ies == [] {
      WalkEnds(frame, len, next);
    } else {
      FoundNext(ies);
      ExpectedNext(ies[0], Found(Behind(ies)));
      if ies[0].data == [] {
        EncodedFirst(frame, next, ies);
        EmptyStops(frame, len, next, ies[0]);
      } else {
        var left := FirstTurn(frame, len, next, ies);
        WalkOfEncoded(left, len, next + 3 + |ies[0].data|, Behind(ies));
      }
    }
  }

  lemma WalkEnds(frame: Octets, len: nat, next: nat)
    requires Ahead(frame, len, next, [])
    ensures Walk(frame, len, next) == Expected(Found([]))
  {
  }

  lemma ExpectedNext(ie: IE, rest: seq<IE>)
    ensures Expected([ie] + rest) ==
            if ie.data == [] then Walked([], [], 0, 0, Overflow) else Join(SeenOf(ie), Expected(rest))
  {
    assert ([ie] + rest)[1..] == rest;
  }

  lemma FirstTurn(frame: Octets, len: nat, next: nat, ies: seq<IE>) returns (left: Octets)
    requires Ahead(frame, len, next, ies) && ies != [] && ies[0].data != []
    ensures |left| == |frame| && Ahead(left, len, next + 3 + |ies[0].data|, Behind(ies))
    ensures Walk(frame, len, next) == Join(SeenOf(ies[0]), Walk(left, len, next + 3 + |ies[0].data|))
  {
    hide TurnAt, Walk, SeenOf, Behind, IsFollowup, WellFormed, At, Encode, Marked;
    var ie := ies[0];
    var after := next + 3 + |ie.data|;
    EncodedFirst(frame, next, ies);
    left := if IsFollowup(ie) then frame[after := 0] else frame;
    OneTurn(frame, len, next, ie);
    WalkGoes(frame, len, next, left, ie);
    LeftBehind(frame, after, ies);
  }

  /** The body that is left encodes what is left of the attributes. */
  lemma LeftBehind(frame: Octets, after: nat, ies: seq<IE>)
    requires WellFormed(ies) && ies != [] && after < |frame| && At(frame, after, Encode(Wide, ies[1..]))
    ensures var left := if IsFollowup(ies[0]) then frame[after := 0] else frame;
            && WellFormed(Behind(ies)) && At(left, after, Encode(Wide, Behind(ies)))
            && |Encode(Wide, Behind(ies))| == |Encode(Wide, ies[1..])|
  {
    if IsFollowup(ies[0]) && |ies| > 1 {
      BlankEncodes(ies[1..]);
      AtBlank(frame, after, Encode(Wide, ies[1..]));
      assert ies[1..][1..] == ies[2..];
    }
  }

  lemma BlankEncodes(ies: seq<IE>)
    requires WellFormed(ies) && ies != []
    ensures var blank := [IE(0, ies[0].data)] + ies[1..];
            && WellFormed(blank) && Encode(Wide, ies) != []
            && Encode(Wide, blank) == Encode(Wide, ies)[0 := 0]
  {
    var blank := [IE(0, ies[0].data)] + ies[1..];
    assert blank[1..] == ies[1..];
    hide Marked;
    assert Header(Wide, 0, |ies[0].data|) == Header(Wide, ies[0].id, |ies[0].data|)[0 := 0];
  }

  lemma AtBlank(frame: Octets, at: nat, e: Octets)
    requires e != [] && At(frame, at, e)
    ensures At(frame[at := 0], at, e[0 := 0])
  {
    assert forall i :: 0 <= i < |e| ==> frame[at + i] == frame[at..at + |e|][i] == e[i];
  }

  lemma EncodedFirst(frame: Octets, next: nat, ies: seq<IE>)
    requires WellFormed(ies) && ies != [] && At(frame, next, Encode(Wide, ies))
    ensures var ie, rest := ies[0], ies[1..];
            && At(frame, next, Header(Wide, ie.id, |ie.data|) + ie.data)
            && WellFormed(rest) && At(frame, next + 3 + |ie.data|, Encode(Wide, rest))
            && |Encode(Wide, ies)| == 3 + |ie.data| + |Encode(Wide, rest)|
            && (ie.id == 3 ==> Marked(ie))
  {
    SplitsEncoded(frame, next, ies);
  }

  lemma SplitsEncoded(frame: Octets, next: nat, ies: seq<IE>)
    requires Encodable(Wide, ies) && ies != [] && At(frame, next, Encode(Wide, ies))
    ensures var ie, rest := ies[0], ies[1..];
            && At(frame, next, Header(Wide, ie.id, |ie.data|) + ie.data)
            && At(frame, next + 3 + |ie.data|, Encode(Wide, rest))
            && |Encode(Wide, ies)| == 3 + |ie.data| + |Encode(Wide, rest)|
  {
    var ie := ies[0];
    var first := Header(Wide, ie.id, |ie.data|) + ie.data;
    assert |first| == 3 + |ie.data|;
    AtParts(frame, next, first, Encode(Wide, ies[1..]));
  }

  lemma EmptyStops(frame: Octets, len: nat, next: nat, ie: IE)
    requires len <= |frame| && next + 3 <= len - 4 && len < 0x1_0000_0000
    requires Fits(Wide, ie) && At(frame, next, Header(Wide, ie.id, |ie.data|) + ie.data) && ie.data == []
    ensures Walk(frame, len, next) == Walked([], [], 0, 0, Overflow)
  {
    AttributeAt(frame, next, ie);
  }

  lemma WalkGoes(frame: Octets, len: nat, next: nat, left: Octets, ie: IE)
    requires len <= |frame| && next < Limit(len)
    requires TurnAt(frame, len, next) == Go(SeenOf(ie), left, next + 3 + |ie.data|)
    ensures |left| == |frame|
    ensures Walk(frame, len, next) == Join(SeenOf(ie), Walk(left, len, next + 3 + |ie.data|))
  {
    hide TurnAt, SeenOf, Join;
  }

  lemma {:induction false} ExpectedSees(ies: seq<IE>)
    requires forall i :: 0 <= i < |ies| ==> ies[i].data != []
    ensures Expected(ies).visits == ies && Expected(ies).messages == Texts(ies) && Expected(ies).end == Finished
  {
    if ies != [] {
      ExpectedSees(ies[1..]);
      assert [ies[0]] + ies[1..] == ies;
    }
  }

  lemma {:induction false} ExpectedStops(ies: seq<IE>, k: nat)
    requires k < |ies| && ies[k].data == []
    ensures Expected(ies).end == Overflow
    decreases k
  {
    if ies[0].data != [] {
      ExpectedStops(ies[1..], k - 1);
    }
  }

  predicate NoneEmpty(ies: seq<IE>) {
    forall i :: 0 <= i < |ies| ==> ies[i].data != []
  }

  /** On a frame whose body the Go parser takes apart into well-formed attributes, the C walk finds
      the same contents in the same order, with the texts of the follow-ups it meets, and reaches
      the end exactly when none is empty. */
  lemma WalkFinds(frame: Octets, len: nat)
    requires 34 <= len <= |frame| && len < 0x1_0000_0000
    requires var r := Decode(Wide, frame[ACTION_START..len - 4]); r.Some? && WellFormed(r.value)
    ensures var ies, w := Decode(Wide, frame[ACTION_START..len - 4]).value, Walk(frame, len, ACTION_START);
            if NoneEmpty(ies) then w.end == Finished && w.visits == Found(ies) && w.messages == Texts(Found(ies))
            else w.end == Overflow
  {
    hide Found, Expected, Texts, Walk, Decode;
    var b := frame[ACTION_START..len - 4];
    var ies := Decode(Wide, b).value;
    EncodeOfDecode(Wide, b);
    WalkOfEncoded(frame, len, ACTION_START, ies);
    if k: int :| 0 <= k < |ies| && ies[k].data == [] {
      ExpectedStops(Found(ies), k);
    } else {
      ExpectedSees(Found(ies));
    }
  }

  /** It sees the very same attributes exactly when none is empty and no tag behind a follow-up gets
      lost. */
  lemma WalkAgreesWithParser(frame: Octets, len: nat)
    requires 34 <= len <= |frame| && len < 0x1_0000_0000
    requires var r := Decode(Wide, frame[ACTION_START..len - 4]); r.Some? && WellFormed(r.value)
    ensures var ies, w := Decode(Wide, frame[ACTION_START..len - 4]).value, Walk(frame, len, ACTION_START);
            w.end == Finished && w.visits == ies <==> NoneEmpty(ies) && Undisturbed(ies)
  {
    WalkFinds(frame, len);
    FoundSame(Decode(Wide, frame[ACTION_START..len - 4]).value);
  }

  /** Two attributes of which the walk loses the second one's tag. */
  lemma TagBehindFollowupIsLost(followup: IE, other: IE)
    requires IsFollowup(followup)
    ensures Found([followup, other]) == [followup, IE(0, other.data)]
    ensures Undisturbed([followup, other]) <==> other.id == 0
  {
    var both := [followup, other];
    FoundNext(both);
    assert Behind(both) == [IE(0, other.data)];
    FoundNext([IE(0, other.data)]);
    assert Behind([IE(0, other.data)]) == [];
    assert both[1] == other;
  }

  // ----- Staying inside the receive buffer

  lemma {:induction false} TurnsInside(frame: Octets, len: nat, next: nat)
    requires 4 <= len < 0x1_0000_0000 && len + 267 <= |frame|
    ensures Walk(frame, len, next).end != OutOfBounds
    decreases Limit(len) - next
  {
    if next < Limit(len) {
      var turn := TurnAt(frame, len, next);
      if turn.Go? {
        TurnsInside(turn.frame, len, turn.after);
      }
    }
  }

  /** With 267 bytes behind the frame the walk stays inside the receive buffer, whatever the frame
      says, lengths below four included. */
  lemma WalkStaysInside(frame: Octets, len: nat)
    requires len < 0x1_0000_0000 && len + 267 <= |frame|
    ensures Walk(frame, len, ACTION_START).end != OutOfBounds
  {
    if 4 <= len {
      TurnsInside(frame, len, ACTION_START);
    }
  }

  /** 35 bytes of frame in a buffer of `n`: a descriptor of one byte, behind which a control byte, a
      length byte and a "PING" are found. */
  function Stretched(n: nat): (frame: Octets)
    requires n >= 35
    ensures |frame| == n
  {
    seq(n, i => if i == 30 then 3 else if i == 31 then 1 else if i == 41 then 0x12 else if i == 42 then 255
                else if i == 43 then 0x50 else if i == 44 then 0x49 else if i == 45 then 0x4e else if i == 46 then 0x47
                else 0)
  }

  /** No fewer will do. */
  lemma SmallerBufferIsLeft(n: nat)
    requires 35 <= n < 35 + 267
    ensures Walk(Stretched(n), 35, ACTION_START).end == OutOfBounds
  {
    var frame := Stretched(n);
    assert Length16At(frame, 30) == 1;
    if n >= 47 {
      assert frame[43..47] == PING;
    }
    assert TurnAt(frame, 35, 30).Broken?;
  }

  /** A frame on which the two differ: its one attribute is empty, which the Go parser takes and the C
      walk calls an overflow. */
  lemma EmptyAttributeStops(head: Octets, id: Byte, fcs: Octets)
    requires |head| == 30 && |fcs| == 4
    ensures Decode(Wide, [id, 0, 0]) == Some([IE(id, [])])
    ensures var frame := head + [id, 0, 0] + fcs;
            Walk(frame, |frame|, ACTION_START) == Walked([], [], 0, 0, Overflow)
  {
    var ie := IE(id, []);
    assert Header(Wide, id, 0) + ie.data == [id, 0, 0];
    DecodeSingle(Wide, ie);
    var frame := head + [id, 0, 0] + fcs;
    assert frame[30..33] == [id, 0, 0];
    EmptyStops(frame, |frame|, ACTION_START, ie);
  }

  /** The walk tests an attribute against the end of the frame, not of the body: one that lacks up to
      four bytes, which the Go parser refuses, is taken with the start of the checksum. */
  lemma ChecksumIsTaken(head: Octets, id: Byte, data: Octets, lacking: nat, fcs: Octets)
    requires |head| == 30 && |fcs| == 4 && 1 <= lacking <= 4 && |data| + lacking < 65536 && id != 3
    ensures var body := Header(Wide, id, |data| + lacking) + data;
            var frame := head + body + fcs;
            && Decode(Wide, body) == None
            && Walk(frame, |frame|, ACTION_START) == Walked([IE(id, data + fcs[..lacking])], [], 0, 0, Finished)
  {
    var ie := IE(id, data + fcs[..lacking]);
    var h := Header(Wide, id, |ie.data|);
    LackingIsRefused(h, id, |ie.data|, data);
    hide Decode, Encode;
    var frame := head + (h + data) + fcs;
    assert frame[30..30 + |h + ie.data|] == h + ie.data;
    AttributeAt(frame, ACTION_START, ie);
    var after := ACTION_START + 3 + |ie.data|;
    assert TurnAt(frame, |frame|, ACTION_START) == Go(Walked([ie], [], 0, 0, Finished), frame, after);
    hide TurnAt;
    assert Walk(frame, |frame|, after) == NOTHING;
    JoinNothing(Walked([ie], [], 0, 0, Finished));
  }

  /** One that lacks five bytes or more stops the walk, and a frame that lacks the checksum itself is
      stopped at its first attribute, where one is. */
  lemma MissingMoreStops(head: Octets, id: Byte, data: Octets, lacking: nat, fcs: Octets)
    requires |head| == 30 && |fcs| == 4 && 5 <= lacking && |data| + lacking < 65536
    ensures var body := Header(Wide, id, |data| + lacking) + data;
            var frame := head + body + fcs;
            Decode(Wide, body) == None && Walk(frame, |frame|, ACTION_START) == Walked([], [], 0, 0, Overflow)
  {
    var n := |data| + lacking;
    var h := Header(Wide, id, n);
    LackingIsRefused(h, id, n, data);
    hide Decode, Encode;
    var frame := head + (h + data) + fcs;
    assert frame[30..33] == h;
    assert frame[31] == frame[30..33][1] && frame[32] == frame[30..33][2];
    assert Length16At(frame, 30) == n;
  }

  lemma NoChecksumStops(frame: Octets, len: nat)
    requires len < 4 && 33 <= |frame|
    ensures Walk(frame, len, ACTION_START) == Walked([], [], 0, 0, Overflow)
  {
  }

  lemma LackingIsRefused(h: Octets, id: Byte, n: nat, data: Octets)
    requires |data| < n < 65536 && h == Header(Wide, id, n)
    ensures Decode(Wide, h + data) == None
  {
    assert Wide.Len(h + data) == n;
  }

  // ----- From one implementation to the other

  /** The Go parser takes an ESP32 message apart into one descriptor around the cut data. */
  lemma MessageParses(dst: Mac, src: Mac, net: Octets, instance: Byte, data: Octets)
    requires |net| == 2
    ensures Decode(Wide, MessageFrame(dst, src, net, instance, data)[30..]) ==
            Some([IE(3, Descriptor(NAN_ID, instance, 0x12, Cut(data)))])
  {
    var body := AttHead(3, |Cut(data)| + 10) + Descriptor(NAN_ID, instance, 0x12, Cut(data));
    assert MessageFrame(dst, src, net, instance, data)[30..] == body;
    DescriptorParses(NAN_ID, instance, 0x12, Cut(data));
  }

  /** An ESP32 publication carries the very attributes of a Go discovery frame for the same data. */
  lemma PublishAgreesWithDiscovery(src: Mac, net: Octets, other: Mac)
    requires |net| == 2
    ensures PublishFrame(src, net)[30..] == Discovery(other, PUBLISHED)[30..]
    ensures Decode(Wide, PublishFrame(src, net)[30..]) == Some(DiscoveryAtts(Ascii("123456780000Wxh7")))
    ensures PublishFrame(src, net)[..30] == ActionHead([0xff, 0xff, 0xff, 0xff, 0xff, 0xff], src, net)
  {
    assert PUBLISHED == Ascii("123456780000Wxh7");
    assert PUBLISH_ATT == AttHead(3, |PUBLISHED| + 10) + Descriptor(1, 0, 0x10, PUBLISHED);
    assert PublishFrame(src, net)[30..] == FIXED_BYTES + PUBLISH_ATT == Discovery(other, PUBLISHED)[30..];
    DiscoveryParses(other, PUBLISHED);
  }

  /** An ESP32 message byte by byte. */
  lemma MessageBytes(dst: Mac, src: Mac, net: Octets, instance: Byte, data: Octets)
    requires |net| == 2
    ensures var f, text := MessageFrame(dst, src, net, instance, data), if |data| > 255 then data[..255] else data;
            && f[..4] == [0xd0, 0, 0, 0] && f[4..10] == dst && f[10..16] == src
            && f[16..20] == [0x50, 0x6f, 0x9a, 0x01] && f[20..22] == net
            && f[22..30] == [0, 0, 4, 9, 0x50, 0x6f, 0x9a, 0x13]
            && f[30..33] == [3, (|text| + 10) % 256, (|text| + 10) / 256]
            && f[33..43] == [0x75, 0x94, 0x31, 0x93, 0xea, 0xc9, 1, instance, 0x12, |text|]
            && f[43..] == text
  {
    var rest := AttHead(3, |Cut(data)| + 10) + Descriptor(NAN_ID, instance, 0x12, Cut(data));
    HeadBytes(dst, src, net, rest);
    hide ActionHead;
    DescriptorBytes(NAN_ID, instance, 0x12, Cut(data), MessageFrame(dst, src, net, instance, data), 30);
  }

  /** A frame of a head, a well-formed body and a checksum, walked. */
  lemma Delivered(head: Octets, body: Octets, fcs: Octets, ies: seq<IE>)
    requires |head| == 30 && |fcs| == 4 && |body| < 0x1_0000
    requires Decode(Wide, body) == Some(ies) && WellFormed(ies)
    ensures var frame := head + body + fcs; Walk(frame, |frame|, ACTION_START) == Expected(Found(ies))
  {
    var frame := head + body + fcs;
    EncodeOfDecode(Wide, body);
    assert At(frame, 30, body);
    WalkOfEncoded(frame, |frame|, ACTION_START, ies);
  }

  lemma OneFollowup(ie: IE, sdu: Octets, instance: Byte, requestor: Byte)
    requires ie == IE(3, Descriptor(instance, requestor, 0x12, sdu)) && |sdu| <= 255
    ensures WellFormed([ie]) && Expected(Found([ie])) == Walked([ie], [sdu], 0, 0, Finished)
  {
    assert ie.data[8] == 0x12 && ie.data[9] == |sdu| % 256 == |sdu| && ie.data[10..] == sdu;
    assert [ie][1..] == [] && Found([ie]) == [ie];
    assert Expected([ie]) == Join(SeenOf(ie), NOTHING);
    JoinNothing(SeenOf(ie));
  }

  /** A Go follow-up with at most 255 bytes passes the sniffer's checks, and the ESP32 reads it as
      one message with exactly that payload, whatever the sender's address and the checksum. */
  lemma FollowupDelivered(src: Mac, sdu: Octets, fcs: Octets)
    requires |sdu| <= 255 && |fcs| == 4
    ensures var frame := Followup(src, sdu) + fcs;
            && Classify(true, frame) == Daf
            && Walk(frame, |frame|, ACTION_START) == Walked(FollowupAtts(sdu), [sdu], 0, 0, Finished)
  {
    var head := ActionHead(BROADCAST, src, CLUSTER);
    var body := AttHead(3, |sdu| + 10) + Descriptor(0x80, 0x80, 0x12, sdu);
    DescriptorParses(0x80, 0x80, 0x12, sdu);
    OneFollowup(FollowupAtts(sdu)[0], sdu, 0x80, 0x80);
    Delivered(head, body, fcs, FollowupAtts(sdu));
    HeadIsDaf(BROADCAST, src, CLUSTER, body + fcs);
    ThreeParts(head, body, fcs);
  }

  /** A Go discovery frame with at most 255 bytes of data is walked as its four attributes, one of them
      a publication. */
  lemma DiscoveryDelivered(src: Mac, sdu: Octets, fcs: Octets)
    requires |sdu| <= 255 && |fcs| == 4
    ensures var frame := Discovery(src, sdu) + fcs;
            && Classify(true, frame) == Daf
            && Walk(frame, |frame|, ACTION_START) == Walked(DiscoveryAtts(sdu), [], 1, 0, Finished)
  {
    var head := ActionHead(NAN_MULTICAST, src, CLUSTER);
    var body := FIXED_BYTES + (AttHead(3, |sdu| + 10) + Descriptor(1, 0, 0x10, sdu));
    DiscoveryParses(src, sdu);
    hide ActionHead, Walk, Decode, Classify;
    assert Discovery(src, sdu)[30..] == body;
    DiscoverySeen(sdu);
    Delivered(head, body, fcs, DiscoveryAtts(sdu));
    HeadIsDaf(NAN_MULTICAST, src, CLUSTER, body + fcs);
    ThreeParts(head, body, fcs);
  }

  lemma DiscoverySeen(sdu: Octets)
    requires |sdu| <= 255
    ensures WellFormed(DiscoveryAtts(sdu))
    ensures Expected(Found(DiscoveryAtts(sdu))) == Walked(DiscoveryAtts(sdu), [], 1, 0, Finished)
  {
    var last := IE(3, Descriptor(1, 0, 0x10, sdu));
    assert last.data[8] == 0x10 && last.data[9] == |sdu| % 256 == |sdu|;
    hide Descriptor, WellFormed, Expected, Found, SeenOf;
    var a, b, c := IE(0x0f, DEVICE_CAP), IE(0x12, AVAILABILITY), IE(0x0e, EXTENSION);
    assert DiscoveryAtts(sdu) == [a, b, c, last];
    LastUndisturbed(a, b, c, last);
    LastSeen(last);
    OneBefore(c, [last]);
    OneBefore(b, [c, last]);
    OneBefore(a, [b, c, last]);
    assert [c] + [last] == [c, last] && [b] + [c, last] == [b, c, last] && [a] + [b, c, last] == [a, b, c, last];
  }

  lemma LastUndisturbed(a: IE, b: IE, c: IE, last: IE)
    requires a.id != 3 && b.id != 3 && c.id != 3
    ensures Found([a, b, c, last]) == [a, b, c, last]
  {
    FoundSame([a, b, c, last]);
  }

  lemma LastSeen(last: IE)
    requires last.id == 3 && |last.data| >= 10 && last.data[8] == 0x10 && last.data[9] == |last.data| - 10
    ensures WellFormed([last]) && Expected([last]) == Walked([last], [], 1, 0, Finished)
  {
    assert Expected([last]) == Join(SeenOf(last), NOTHING);
    JoinNothing(SeenOf(last));
  }

  /** An attribute other than a service descriptor, in front of others. */
  lemma OneBefore(ie: IE, rest: seq<IE>)
    requires ie.id != 3 && 0 < |ie.data| < 65536 && WellFormed(rest)
    ensures WellFormed([ie] + rest)
    ensures var e := Expected(rest);
            Expected([ie] + rest) == Walked([ie] + e.visits, e.messages, e.pubs, e.subs, e.end)
  {
    assert ([ie] + rest)[1..] == rest;
    assert [] + Expected(rest).messages == Expected(rest).messages;
  }

  /** One descriptor, byte by byte: control 0x11 counts as a subscription, 0x10 as a publication, and any
      other is a message with the text that the length byte marks off. */
  lemma DescriptorDelivered(
      head: Octets, service: Octets, instance: Byte, requestor: Byte, control: Byte, text: Octets, fcs: Octets)
    requires |head| == 30 && |service| == 6 && |fcs| == 4 && |text| <= 245
    ensures var att := [3, |text| + 10, 0] + service + [instance, requestor, control, |text|] + text;
            var frame := head + att + fcs;
            var w := Walk(frame, |frame|, 30);
            && w.end == Finished && w.visits == [IE(3, att[3..])]
            && w.subs == (if control == 0x11 then 1 else 0)
            && w.pubs == (if control == 0x10 then 1 else 0)
            && w.messages == if control == 0x10 || control == 0x11 then [] else [text]
  {
    var d := service + [instance, requestor, control, |text|] + text;
    var ie := IE(3, d);
    var att := [3, |text| + 10, 0] + service + [instance, requestor, control, |text|] + text;
    assert att == Header(Wide, 3, |d|) + d && att[3..] == d;
    DecodeSingle(Wide, ie);
    assert d[8] == control && d[9] == |text| && d[10..] == text;
    hide Walk, Decode, Header;
    DescriptorSeen(ie);
    Delivered(head, att, fcs, [ie]);
  }

  lemma DescriptorSeen(ie: IE)
    requires ie.id == 3 && Marked(ie) && |ie.data| < 65536
    ensures WellFormed([ie]) && Expected(Found([ie])) == SeenOf(ie)
  {
    assert [ie][1..] == [] && Found([ie]) == [ie];
    assert Expected([ie]) == Join(SeenOf(ie), NOTHING);
    JoinNothing(SeenOf(ie));
  }

  /** The same for a message between two ESP32s: the receiver gets the first 255 bytes. */
  lemma MessageDelivered(dst: Mac, src: Mac, net: Octets, instance: Byte, data: Octets, fcs: Octets)
    requires |net| == 2 && |fcs| == 4
    ensures var frame := MessageFrame(dst, src, net, instance, data) + fcs;
            && Classify(true, frame) == Daf
            && Walk(frame, |frame|, ACTION_START).messages == [if |data| > 255 then data[..255] else data]
            && Walk(frame, |frame|, ACTION_START).end == Finished
  {
    var d := Descriptor(NAN_ID, instance, 0x12, Cut(data));
    var head, body := ActionHead(dst, src, net), AttHead(3, |Cut(data)| + 10) + d;
    DescriptorParses(NAN_ID, instance, 0x12, Cut(data));
    OneFollowup(IE(3, d), Cut(data), NAN_ID, instance);
    Delivered(head, body, fcs, [IE(3, d)]);
    HeadIsDaf(dst, src, net, body + fcs);
    ThreeParts(head, body, fcs);
  }

  lemma HeadIsDaf(dst: Mac, src: Mac, net: Octets, rest: Octets)
    requires |net| == 2 && |rest| >= 4
    ensures Classify(true, ActionHead(dst, src, net) + rest) == Daf
  {
    var frame := ActionHead(dst, src, net) + rest;
    assert frame[16] == 0x50 && frame[17] == 0x6f && frame[18] == 0x9a && frame[0] == 0xd0;
    assert frame[24] == 4 && frame[25] == 9 && frame[26] == 0x50 && frame[27] == 0x6f;
    assert frame[28] == 0x9a && frame[29] == 0x13;
  }

  /** The ESP32 takes a Go beacon for a sync beacon exactly until the first non-sync one was sent. */
  lemma BeaconKind(src: Mac, time: Octets, stuck: bool, master: Mac, fcs: Octets)
    requires |time| == 8
    ensures Classify(true, Beacon(src, time, stuck, master) + fcs) == BeaconFrame(!stuck)
  {
    var frame := Beacon(src, time, stuck, master) + fcs;
    assert frame[16] == 0x50 && frame[17] == 0x6f && frame[18] == 0x9a && frame[0] == 0x80;
    assert frame[32] == if stuck then 128 else 0;
    assert frame[33] == if stuck then 0 else 2;
  }
}
