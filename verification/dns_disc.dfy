/**
 The service-discovery message around the DNS name and the TXT record: a two-byte length, the
 service type, a transaction id, a status, the fixed name and type, and the records.
 */
module DnsDisc {
  import opened Bytes
  import opened DnsName
  import opened DnsTxt

  const DM: Octets := [0x64, 0x6d]
  const UNDERSCORE_DM: Octets := [0x5f, 0x64, 0x6d]

  /** Labels "dm" and "_dm", a pointer to "_udp.local.", a zero, type TXT (0x10) and version 1. */
  const NAME_TXT: Octets := [0x02, 0x64, 0x6d, 0x03, 0x5f, 0x64, 0x6d, 0xc0, 0x1c, 0x00, 0x10, 0x01]

  /** "dm._dm._udp.local." */
  const OWN_NAME: Octets := DM + [DOT] + (UNDERSCORE_DM + [DOT]) + (UDP + [DOT] + (LOCAL + [DOT]))

  // ----- The packer

  function Message(transId: Byte, rec: Meta, order: seq<Octets>): Octets
    requires Enumerates(order, rec)
  {
    var body := [1, transId, 0] + NAME_TXT + TxtBytes(rec, order);
    [|body| % 256, |body| / 256 % 256] + body
  }

  /** `reqB` is the decoded request, whose fourth byte is the transaction id. */
  method PackDns(reqB: Octets, rec: Meta, order: seq<Octets>) returns (r: Option<Octets>)
    requires Enumerates(order, rec)
    ensures r == if |reqB| < 4 then None else Some(Message(reqB[3], rec, order))
  {
    hide TxtBytes;
    var bb := new Buffer();
    bb.WriteByte(0);
    bb.WriteByte(0);
    bb.WriteByte(1);
    if |reqB| < 4 {
      return None;
    }
    bb.WriteByte(reqB[3]);
    bb.WriteByte(0);
    bb.Write(NAME_TXT);
    PackTxtBytes(bb, rec, order);
    PatchesHead([1, reqB[3], 0] + NAME_TXT + TxtBytes(rec, order), bb.data);
    var bbal := |bb.data| - 2;
    bb.data := bb.data[0 := bbal % 256];
    bb.data := bb.data[1 := bbal / 256 % 256];
    return Some(bb.data);
  }

  lemma PatchesHead(body: Octets, data: Octets)
    requires data == [0, 0] + body
    ensures var n := |data| - 2;
            data[0 := n % 256][1 := n / 256 % 256] == [|body| % 256, |body| / 256 % 256] + body
  {
  }

  // ----- The parser

  datatype Disc = Panics | Rejected | Accepted(meta: Meta)

  function ParseMessage(data: Octets, decoded: nat): Disc {
    if decoded != |data| then Rejected
    else if |data| < 3 then Panics
    else if data[2] != 1 then Rejected
    else if |data| < 5 then Panics
    else if data[4] != 0 then Rejected
    else ParseDnsData(data[5..], Length16(data))
  }

  /** The length field plus two, in the 16-bit arithmetic the code does it in. */
  function Length16(data: Octets): nat
    requires |data| >= 2
  {
    var lo: int, hi: int := data[0], data[1];
    (256 * hi + lo + 2) % 65536
  }

  /** `dns` runs to the end of the data; the record ends at `end - 5`, and the TXT slice, which
      counts from the wrong base, at `end`. */
  function ParseDnsData(dns: Octets, end: nat): Disc {
    if end < 5 || end - 5 > |dns| then Panics
    else
      var n := Unpack(dns[..end - 5], 0);
      if n.err || n.name != OWN_NAME then Rejected
      else if n.end + 1 >= end - 5 then Panics
      else if dns[n.end + 1] != 0x10 then Rejected
      else if n.end + 3 > end || end > |dns| then Panics
      else
        match ParseTxt(Slice(dns[n.end + 3..], end - (n.end + 3)))
        case None => Panics
        case Some(meta) => Accepted(meta)
  }

  /** A missing key reads as the empty string. */
  function Get(meta: Meta, key: Octets): Octets {
    if key in meta then meta[key] else []
  }

  class MeshDevice {
    var MAC: Octets
    var ServiceUpdateInd: int
    var PSK: Octets
    var SSID: Octets
    var Net: Octets

    constructor ()
    {
      MAC, ServiceUpdateInd, PSK, SSID, Net := [], 0, [], [], [];
    }
  }

  /** `mac` and `sui` are the second and third words of the event, `data` the buffer its fourth is
      decoded into and `decoded` how many bytes of it were. The result is `None` on a panic. */
  method ParseDisc(mac: Octets, sui: int, data: Octets, decoded: nat, d: MeshDevice) returns (r: Option<bool>)
    modifies d
    ensures d.MAC == mac && d.ServiceUpdateInd == sui
    ensures match ParseMessage(data, decoded)
            case Accepted(meta) =>
              && r == Some(true)
              && d.PSK == (if [0x70] in meta then meta[[0x70]] else [])
              && d.SSID == (if [0x73] in meta then meta[[0x73]] else [])
              && d.Net == (if [0x63] in meta then meta[[0x63]] else [])
            case Rejected =>
              r == Some(false) && d.PSK == old(d.PSK) && d.SSID == old(d.SSID) && d.Net == old(d.Net)
            case Panics =>
              r == None && d.PSK == old(d.PSK) && d.SSID == old(d.SSID) && d.Net == old(d.Net)
  {
    hide Unpack, ParseTxt, Length16;
    d.MAC := mac;
    d.ServiceUpdateInd := sui;
    if decoded != |data| {
      return Some(false);
    }
    if |data| < 3 {
      return None;
    }
    var end := Length16(data);
    if data[2] != 1 {
      return Some(false);
    }
    if |data| < 5 {
      return None;
    }
    if data[4] != 0 {
      return Some(false);
    }
    if end < 5 || end > |data| {
      return None;
    }
    var dns := data[5..];
    var n, built := UnpackDomainName(dns[..end - 5], 0);
    if n.err {
      return Some(false);
    }
    if n.name != OWN_NAME {
      return Some(false);
    }
    var off := n.end + 1;
    if off >= end - 5 {
      return None;
    }
    if dns[off] != 0x10 {
      return Some(false);
    }
    off := off + 2;
    if off > end || end > |dns| {
      return None;
    }
    var meta := ParseDns(Slice(dns[off..], end - off));
    if meta.None? {
      return None;
    }
    d.PSK := Get(meta.value, [0x70]);
    d.SSID := Get(meta.value, [0x73]);
    d.Net := Get(meta.value, [0x63]);
    return Some(true);
  }

  // ----- The round trip

  /** The nine bytes of the name are enough. */
  lemma ReadsName(msg: Octets)
    requires |msg| >= 9 && msg[..9] == NAME_TXT[..9]
    ensures Unpack(msg, 0) == Unpacked(OWN_NAME, 9, false)
  {
    var labels := [DM] + [UNDERSCORE_DM];
    WireOfOwn();
    assert msg[0..7] == msg[..9][..7] == NAME_TXT[..7];
    assert msg[7] == msg[..9][7] && msg[8] == msg[..9][8];
    EndsAtDomain(msg, 0, labels, 0x1c);
    PresentPlain(DM, [UNDERSCORE_DM]);
    PresentOne(UNDERSCORE_DM);
  }

  lemma ReadsOwnName(msg: Octets)
    requires At(msg, 0, NAME_TXT)
    ensures Unpack(msg, 0) == Unpacked(OWN_NAME, 9, false)
  {
    assert msg[..9] == msg[0..12][..9];
    ReadsName(msg);
  }

  lemma PresentOne(part: Octets)
    requires Plain(part)
    ensures Present([part]) == part + [DOT]
  {
    PresentPlain(part, []);
    assert [part] + [] == [part];
  }

  lemma WireOfOwn()
    ensures ValidLabels([DM] + [UNDERSCORE_DM])
    ensures Wire([DM] + [UNDERSCORE_DM]) == NAME_TXT[..7]
    ensures |Wire([DM] + [UNDERSCORE_DM])| == 7
  {
    var labels := [DM] + [UNDERSCORE_DM];
    assert labels[1..] == [UNDERSCORE_DM];
    assert Wire([UNDERSCORE_DM]) == [3] + UNDERSCORE_DM + Wire([]);
    assert Wire(labels) == [2] + DM + ([3] + UNDERSCORE_DM);
    assert Wire(labels) == NAME_TXT[..7];
  }

  lemma ModWord(t: nat, k: nat)
    requires t < 65536
    ensures (t + 65536 * k) % 65536 == t
  {
  }

  lemma WordOfBytes(n: nat)
    ensures (256 * (n / 256 % 256) + n % 256 + 2) % 65536 == (n + 2) % 65536
  {
    var q, k := n / 256, n / 256 / 256;
    var x := 256 * (q % 256) + n % 256;
    assert q == q % 256 + 256 * k && n == x + 65536 * k;
    if x + 2 < 65536 {
      ModWord(x + 2, k);
    } else {
      ModWord(x + 2 - 65536, k + 1);
    }
  }

  lemma Length16Of(n: nat, data: Octets)
    requires |data| >= 2 && data[0] == n % 256 && data[1] == n / 256 % 256
    ensures Length16(data) == (n + 2) % 65536
  {
    WordOfBytes(n);
  }

  /** The parts of a packed message, and the length it states. */
  lemma MessageHead(transId: Byte, rec: Meta, order: seq<Octets>, tail: Octets)
    requires Enumerates(order, rec)
    ensures var m, txt := Message(transId, rec, order), TxtBytes(rec, order);
            var data := m + tail;
            && |m| == 17 + |txt| && Length16(data) == |m| % 65536
            && data[2] == 1 && data[4] == 0 && data[5..] == NAME_TXT + txt + tail
  {
    hide TxtBytes, Length16;
    var m, txt := Message(transId, rec, order), TxtBytes(rec, order);
    assert m[2..] == [1, transId, 0] + NAME_TXT + txt;
    Length16Of(|m| - 2, m + tail);
  }

  /** For every enumeration order, transaction id and following bytes, the packed message is
      refused or panicked on only because of those bytes: with fewer than five of them the slice
      runs out, and with five or more the records are read and then overlaid with whatever those
      five parse to as a TXT slice of their own. */
  lemma DiscRoundTrip(transId: Byte, rec: Meta, order: seq<Octets>, tail: Octets)
    requires Enumerates(order, rec) && AllFit(rec) && |Message(transId, rec, order)| < 65536
    ensures var data := Message(transId, rec, order) + tail;
            ParseMessage(data, |data|) ==
            if |tail| < 5 then Panics
            else match ParseTxt(Slice(tail, 5))
                 case None => Panics
                 case Some(more) => Accepted(Kept(rec) + more)
  {
    hide Message, Length16, ParseDnsData, TxtBytes, AllFit, Enumerates, Kept;
    MessageHead(transId, rec, order, tail);
    DnsDataRoundTrip(rec, order, tail);
  }

  lemma OwnNameFirst(txt: Octets, tail: Octets)
    ensures var dns := NAME_TXT + txt + tail;
            && Unpack(dns[..12 + |txt|], 0) == Unpacked(OWN_NAME, 9, false)
            && dns[10] == 0x10 && dns[12..] == txt + tail
  {
    var dns := NAME_TXT + txt + tail;
    var msg := dns[..12 + |txt|];
    assert msg[0..12] == NAME_TXT;
    ReadsOwnName(msg);
    assert dns[10] == NAME_TXT[10];
  }

  lemma AfterOwnName(dns: Octets, end: nat)
    requires 17 <= end <= |dns| + 5 && dns[10] == 0x10
    requires Unpack(dns[..end - 5], 0) == Unpacked(OWN_NAME, 9, false)
    ensures ParseDnsData(dns, end) ==
            if end > |dns| then Panics
            else match ParseTxt(Slice(dns[12..], end - 12))
                 case None => Panics
                 case Some(meta) => Accepted(meta)
  {
  }

  lemma DnsDataRoundTrip(rec: Meta, order: seq<Octets>, tail: Octets)
    requires Enumerates(order, rec) && AllFit(rec)
    ensures var txt := TxtBytes(rec, order);
            ParseDnsData(NAME_TXT + txt + tail, 17 + |txt|) ==
            if |tail| < 5 then Panics
            else match ParseTxt(Slice(tail, 5))
                 case None => Panics
                 case Some(more) => Accepted(Kept(rec) + more)
  {
    hide Unpack, ParseTxt, Kept, ParseDnsData, TxtBytes, AllFit;
    var txt := TxtBytes(rec, order);
    OwnNameFirst(txt, tail);
    AfterOwnName(NAME_TXT + txt + tail, 17 + |txt|);
    if |tail| >= 5 {
      ParseOfPacked(rec, order, Slice(txt + tail, |txt| + 5), Slice(tail, 5));
    }
  }

  /** When what follows starts with a zero or a byte above five, it adds nothing: the device gets
      the map's own "p", "s" and "c". */
  lemma DiscFields(transId: Byte, rec: Meta, order: seq<Octets>, tail: Octets)
    requires Enumerates(order, rec) && AllClean(rec) && |Message(transId, rec, order)| < 65536
    requires |tail| >= 5 && (tail[0] == 0 || tail[0] > 5)
    ensures var data := Message(transId, rec, order) + tail;
            ParseMessage(data, |data|) == Accepted(rec)
  {
    DiscRoundTrip(transId, rec, order, tail);
    assert tail[..5][0] == tail[0];
    KeptAll(rec);
    OverlayNothing(rec);
  }

  /** The bytes of a packed message: the length behind its own two bytes, the service type, the request's
      transaction id, the status, the name and type, and the records. */
  lemma MessageBytes(transId: Byte, rec: Meta, order: seq<Octets>)
    requires Enumerates(order, rec)
    ensures var m := Message(transId, rec, order);
            var lo: int, hi: int := m[0], m[1];
            && lo + 256 * hi == (|m| - 2) % 65536
            && m[2..5] == [1, transId, 0]
            && m[5..17] == [0x02, 0x64, 0x6d, 0x03, 0x5f, 0x64, 0x6d, 0xc0, 0x1c, 0x00, 0x10, 0x01]
            && m[17..] == TxtBytes(rec, order)
  {
    hide TxtBytes;
    var body := [1, transId, 0] + NAME_TXT + TxtBytes(rec, order);
    LowWord(|body|);
    var m := Message(transId, rec, order);
    assert m[2..] == body;
    hide Message;
    assert m[2..5] == body[..3] && m[5..17] == body[3..15] == NAME_TXT && m[17..] == body[15..];
  }

  lemma LowWord(n: nat)
    ensures n % 256 + 256 * (n / 256 % 256) == n % 65536
  {
    var q, k := n / 256, n / 256 / 256;
    assert q == q % 256 + 256 * k && n == 256 * (q % 256) + n % 256 + 65536 * k;
    ModWord(256 * (q % 256) + n % 256, k);
  }

  lemma OwnNameText()
    ensures OWN_NAME == Ascii("dm._dm._udp.local.")
  {
    OwnLabels();
    OwnDomain();
    JoinedText();
    hide Ascii;
  }

  lemma OwnLabels()
    ensures DM + [DOT] + (UNDERSCORE_DM + [DOT]) == Ascii("dm._dm.")
  {
  }

  lemma OwnDomain()
    ensures UDP + [DOT] + (LOCAL + [DOT]) == Ascii("_udp.local.")
  {
  }

  lemma JoinedText()
    ensures Ascii("dm._dm.") + Ascii("_udp.local.") == Ascii("dm._dm._udp.local.")
  {
  }

  /** What a message needs to be refused or accepted: all of it decoded, the service type 1 and status 0,
      the own name in the bytes up to the stated length, and type 0x10 behind it. The records start two
      bytes on. */
  lemma OutcomeExactly(data: Octets, decoded: nat)
    ensures decoded != |data| ==> ParseMessage(data, decoded) == Rejected
    ensures decoded == |data| < 5 ==>
              ParseMessage(data, decoded) == if |data| >= 3 && data[2] != 1 then Rejected else Panics
    ensures decoded == |data| && |data| >= 5 ==>
              var lo: int, hi: int := data[0], data[1];
              var end := (lo + 256 * hi + 2) % 65536;
              if data[2] != 1 || data[4] != 0 then ParseMessage(data, decoded) == Rejected
              else if end < 5 || end > |data| then ParseMessage(data, decoded) == Panics
              else NameDecides(data, end, ParseMessage(data, decoded))
  {
    OwnNameText();
    hide Unpack, ParseTxt, Ascii;
    if decoded == |data| && |data| >= 5 {
      var lo: int, hi: int := data[0], data[1];
      var end := (lo + 256 * hi + 2) % 65536;
      if 5 <= end <= |data| {
        DnsDataDecides(data, end);
      }
    }
  }

  /** `r` is what a message comes to whose name ends before `end`. */
  ghost predicate NameDecides(data: Octets, end: nat, r: Disc)
    requires 5 <= end <= |data|
  {
    var n := Unpack(data[5..end], 0);
    if n.err || n.name != Ascii("dm._dm._udp.local.") then r == Rejected
    else if n.end + 6 >= end then r == Panics
    else if data[n.end + 6] != 0x10 then r == Rejected
    else if n.end + 3 > end || end + 5 > |data| then r == Panics
    else
      var txt := ParseTxt(Slice(data[n.end + 8..], end - (n.end + 3)));
      r == if txt.None? then Panics else Accepted(txt.value)
  }

  lemma DnsDataDecides(data: Octets, end: nat)
    requires 5 <= end <= |data|
    ensures NameDecides(data, end, ParseDnsData(data[5..], end))
  {
    OwnNameText();
    hide Unpack, ParseTxt, Ascii;
    var dns := data[5..];
    assert dns[..end - 5] == data[5..end];
    var n := Unpack(data[5..end], 0);
    if n.end + 6 < end {
      assert dns[n.end + 1] == data[n.end + 6];
      assert n.end + 8 <= |data| ==> dns[n.end + 3..] == data[n.end + 8..];
    }
  }

  /** From end to end: a map packed on one side sets the device on the other, whatever the order of
      enumeration, when what follows the message in the buffer starts with a zero or a byte above five. */
  method PackAndParse(
      reqB: Octets, rec: Meta, order: seq<Octets>, tail: Octets, mac: Octets, sui: int, d: MeshDevice)
    returns (r: Option<bool>)
    requires |reqB| >= 4 && Enumerates(order, rec) && 17 + |TxtBytes(rec, order)| < 65536
    requires forall k :: k in rec ==> 0x3d !in k && 0x3d !in rec[k] && |k| + 1 + |rec[k]| <= 255
    requires |tail| >= 5 && (tail[0] == 0 || tail[0] > 5)
    modifies d
    ensures r == Some(true) && d.MAC == mac && d.ServiceUpdateInd == sui
    ensures d.PSK == (if [0x70] in rec then rec[[0x70]] else [])
    ensures d.SSID == (if [0x73] in rec then rec[[0x73]] else [])
    ensures d.Net == (if [0x63] in rec then rec[[0x63]] else [])
  {
    hide ParseMessage, Message, TxtBytes;
    var packed := PackDns(reqB, rec, order);
    MessageHead(reqB[3], rec, order, tail);
    DiscFields(reqB[3], rec, order, tail);
    r := ParseDisc(mac, sui, packed.value + tail, |packed.value + tail|, d);
  }

  /** Five bytes that hold the record "p=x" and a zero. */
  const SHORT_RECORD: Octets := [3, 0x70, 0x3d, 0x78, 0]

  /** Without that condition a field can change hands: a short record behind the message replaces
      the packed key. */
  lemma TailOverridesPsk(transId: Byte, rec: Meta, order: seq<Octets>)
    requires Enumerates(order, rec) && AllClean(rec) && |Message(transId, rec, order)| < 65536
    ensures var data := Message(transId, rec, order) + SHORT_RECORD;
            ParseMessage(data, |data|) == Accepted(rec + map[[0x70] := [0x78]])
  {
    DiscRoundTrip(transId, rec, order, SHORT_RECORD);
    ShortRecord();
    KeptAll(rec);
  }

  lemma ShortRecord()
    ensures |SHORT_RECORD| == 5
    ensures ParseTxt(Slice(SHORT_RECORD, 5)) == Some(map[[0x70] := [0x78]])
  {
    var r := Record([0x70], [0x78]);
    assert SHORT_RECORD[..5] == Packed(r) + [0];
    CompleteOfOne(r, [0]);
    EntryOfRecord([0x70], [0x78]);
    EntriesOne(r);
    assert [r] + [] == [r];
  }

  /** `tail` behind the message never stands in the way: every clean map comes back whole. */
  ghost predicate GivesBackEvery(tail: Octets) {
    forall transId, rec, order | Enumerates(order, rec) && AllClean(rec) && |Message(transId, rec, order)| < 65536 ::
      ParseMessage(Message(transId, rec, order) + tail, |Message(transId, rec, order) + tail|) == Accepted(rec)
  }

  /** What follows is harmless to every map exactly when it has five bytes and these, as a TXT slice
      of their own, hold no entry and stay inside what follows. */
  lemma TailHarmlessExactly(tail: Octets)
    ensures GivesBackEvery(tail) <==> |tail| >= 5 && ParseTxt(Slice(tail, 5)) == Some(map[])
  {
    hide ParseMessage, ParseTxt;
    var none: Meta := map[];
    var empty := Message(0, none, []);
    assert |empty| == 17;
    DiscRoundTrip(0, none, [], tail);
    KeptAll(none);
    if |tail| >= 5 && ParseTxt(Slice(tail, 5)).Some? {
      OverlayNothing(ParseTxt(Slice(tail, 5)).value);
    }
    forall transId, rec, order
      | Enumerates(order, rec) && AllClean(rec) && |Message(transId, rec, order)| < 65536
        && |tail| >= 5 && ParseTxt(Slice(tail, 5)) == Some(map[])
      ensures ParseMessage(Message(transId, rec, order) + tail, |Message(transId, rec, order) + tail|) == Accepted(rec)
    {
      DiscRoundTrip(transId, rec, order, tail);
      KeptAll(rec);
      OverlayNothing(rec);
    }
  }

  /** A stated length of at most 2, or of 65534 or 65535, which wrap to 0 and 1, gives a slice end
      below its start. */
  lemma LengthWraps(data: Octets)
    requires |data| >= 5 && data[2] == 1 && data[4] == 0
    requires (data[1] == 0 && data[0] <= 2) || (data[1] == 255 && data[0] >= 254)
    ensures ParseMessage(data, |data|) == Panics
  {
    assert Length16(data) < 5;
  }

  /** A name cut short anywhere is refused. */
  lemma CutNameIsRefused(msg: Octets)
    requires |msg| < 9 && msg == NAME_TXT[..|msg|]
    ensures Unpack(msg, 0).err
  {
    assert |msg| > 0 ==> msg[0] == NAME_TXT[0];
    assert |msg| > 3 ==> msg[3] == NAME_TXT[3];
    assert |msg| > 7 ==> msg[7] == NAME_TXT[7];
    assert Follow(msg, 7, 0).Bad?;
    assert Follow(msg, 3, 0).Bad?;
    assert Follow(msg, 0, 0).Bad?;
  }

  /** What a slice with bytes behind it parses to; it never runs out. */
  function ParsedOn(d: Slice): (m: Meta)
    requires d.len < |d.data|
    ensures ParseTxt(d) == Some(m)
  {
    ParseTxt(d).value
  }

  /** The message that ends at `end` by its own account, in the middle of more of it: a name cut short
      is refused, a type cut off is a panic, and otherwise the records are read up to that end. */
  lemma CutMessage(txt: Octets, tail: Octets, end: nat)
    requires end + 65536 - 17 <= |txt|
    ensures var dns := NAME_TXT + txt + tail;
            ParseDnsData(dns, end) ==
            if end < 5 then Panics
            else if end < 14 then Rejected
            else if end < 16 then Panics
            else Accepted(ParsedOn(Slice(txt + tail, end - 12)))
  {
    hide ParseTxt, Unpack, ParsedOn;
    var dns := NAME_TXT + txt + tail;
    if 5 <= end < 14 {
      assert dns[..end - 5] == NAME_TXT[..end - 5];
      CutNameIsRefused(dns[..end - 5]);
    } else if 14 <= end {
      NameFits(txt, tail, end - 5);
      assert dns[10] == NAME_TXT[10];
      assert dns[12..] == txt + tail;
    }
  }

  lemma NameFits(txt: Octets, tail: Octets, n: nat)
    requires 9 <= n <= 12 + |txt| + |tail|
    ensures Unpack((NAME_TXT + txt + tail)[..n], 0) == Unpacked(OWN_NAME, 9, false)
  {
    var msg := (NAME_TXT + txt + tail)[..n];
    assert msg[0..9] == NAME_TXT[..9];
    ReadsName(msg);
  }

  /** What a packed message of 65536 bytes or more parses to, by its length modulo 65536: nothing if
      that cuts into the name or the type, and otherwise only the records in front of the cut, with
      one that the cut leaves a byte short. */
  lemma LongMessage(transId: Byte, rec: Meta, order: seq<Octets>, tail: Octets)
    requires Enumerates(order, rec) && |Message(transId, rec, order)| >= 65536
    ensures var data := Message(transId, rec, order) + tail;
            var end := |Message(transId, rec, order)| % 65536;
            ParseMessage(data, |data|) ==
            if end < 5 then Panics
            else if end < 14 then Rejected
            else if end < 16 then Panics
            else Accepted(ParsedOn(Slice(TxtBytes(rec, order) + tail, end - 12)))
  {
    hide Message, Length16, TxtBytes, ParseTxt, ParseDnsData;
    MessageHead(transId, rec, order, tail);
    var n := |Message(transId, rec, order)|;
    assert n % 65536 + 65536 <= n;
    CutMessage(TxtBytes(rec, order), tail, |Message(transId, rec, order)| % 65536);
  }

  /** For a map whose records fit, the records it is accepted with are those of an initial part of the
      order: as many as the cut leaves whole or a byte short. */
  lemma LongMessageRecords(transId: Byte, rec: Meta, order: seq<Octets>, tail: Octets) returns (k: nat)
    requires Enumerates(order, rec) && AllFit(rec)
    requires |Message(transId, rec, order)| >= 65536 && |Message(transId, rec, order)| % 65536 >= 16
    ensures var data := Message(transId, rec, order) + tail;
            var end := |Message(transId, rec, order)| % 65536;
            && k <= |order| && ParseMessage(data, |data|) == Accepted(KeptOf(rec, order[..k]))
            && |TxtBytes(rec, order[..k])| <= end - 11
            && (k < |order| ==> end - 11 < |TxtBytes(rec, order[..k + 1])|)
  {
    hide Message, TxtBytes, ParseTxt, ParseMessage, AllFit, KeptOf;
    LongMessage(transId, rec, order, tail);
    MessageHead(transId, rec, order, tail);
    var n := |Message(transId, rec, order)|;
    assert n % 65536 + 65536 <= n;
    k := ParseOfCut(rec, order, tail, n % 65536 - 12);
  }
}
