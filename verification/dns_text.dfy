/**
 The text of a name, byte by byte, as every caller of the reader sees it, and exactly which bytes of
 a message make a name. Nothing here speaks of how the reader writes its escapes or what it
 remembers: the bytes, offsets and limits are written out.
 */
module DnsText {
  import opened Bytes
  import opened DnsName

  /** . ( ) ; space @ " \ */
  predicate Quoted(b: Byte) {
    b == 0x2e || b == 0x28 || b == 0x29 || b == 0x3b || b == 0x20 || b == 0x40 || b == 0x22 || b == 0x5c
  }

  /** Text in which a dot ends a label, each of the eight quoted bytes stands behind a backslash, three
      digits stand behind a backslash only for bytes below 32 or from 127 on, and every other byte
      stands as itself. */
  predicate Text(s: Octets) {
    || s == []
    || (s[0] == 0x2e && Text(s[1..]))
    || (33 <= s[0] <= 126 && !Quoted(s[0]) && Text(s[1..]))
    || (s[0] == 0x5c && |s| >= 2 && Quoted(s[1]) && Text(s[2..]))
    || (s[0] == 0x5c && |s| >= 4 && Outside(s[1], s[2], s[3]) && Text(s[4..]))
  }

  /** Three digits that write a byte outside 32 to 126. */
  predicate Outside(d1: Byte, d2: Byte, d3: Byte) {
    && 0x30 <= d1 <= 0x39 && 0x30 <= d2 <= 0x39 && 0x30 <= d3 <= 0x39
    && var v := 100 * (d1 - 0x30) + 10 * (d2 - 0x30) + (d3 - 0x30);
       v < 32 || 127 <= v < 256
  }

  lemma TextQuoted(b: Byte, rest: Octets)
    requires Quoted(b) && Text(rest)
    ensures Text([0x5c, b] + rest)
  {
    var s := [0x5c, b] + rest;
    assert s[2..] == rest && s[0] == 0x5c && s[1] == b;
  }

  lemma TextDigits(d1: Byte, d2: Byte, d3: Byte, rest: Octets)
    requires Outside(d1, d2, d3) && Text(rest)
    ensures Text([0x5c, d1, d2, d3] + rest)
  {
    hide Outside;
    var s := [0x5c, d1, d2, d3] + rest;
    assert s[4..] == rest && s[0] == 0x5c && s[1] == d1 && s[2] == d2 && s[3] == d3;
  }

  lemma TextItself(b: Byte, rest: Octets)
    requires (b == 0x2e || (33 <= b <= 126 && !Quoted(b))) && Text(rest)
    ensures Text([b] + rest)
  {
    var s := [b] + rest;
    assert s[1..] == rest && s[0] == b;
  }

  lemma DigitsOutside(b: Byte)
    requires b < 32 || 127 <= b
    ensures Outside(0x30 + b / 100, 0x30 + b / 10 % 10, 0x30 + b % 10)
  {
    assert b == 100 * (b / 100) + 10 * (b / 10 % 10) + b % 10;
  }

  lemma TextEscape(b: Byte, rest: Octets)
    requires Text(rest)
    ensures Text(Escape(b) + rest)
  {
    hide Text, Outside;
    if Quoted(b) {
      TextQuoted(b, rest);
    } else if b < 32 || 127 <= b {
      DigitsOutside(b);
      TextDigits(0x30 + b / 100, 0x30 + b / 10 % 10, 0x30 + b % 10, rest);
    } else {
      TextItself(b, rest);
    }
  }

  lemma {:induction false} TextEscapeAll(part: Octets, rest: Octets)
    requires Text(rest)
    ensures Text(EscapeAll(part) + rest)
  {
    hide Text, Escape;
    if part == [] {
      assert EscapeAll(part) + rest == rest;
    } else {
      TextEscapeAll(part[1..], rest);
      TextEscape(part[0], EscapeAll(part[1..]) + rest);
      assert EscapeAll(part) + rest == Escape(part[0]) + (EscapeAll(part[1..]) + rest);
    }
  }

  lemma {:induction false} TextPresent(labels: seq<Octets>)
    ensures Text(Present(labels))
  {
    if labels == [] {
    } else {
      TextPresent(labels[1..]);
      hide Text, EscapeAll;
      var more := Present(labels[1..]);
      TextItself(0x2e, more);
      TextEscapeAll(labels[0], [0x2e] + more);
      assert Present(labels) == EscapeAll(labels[0]) + ([0x2e] + more);
    }
  }

  lemma TextRoot()
    ensures Text([0x2e]) && Text([])
  {
  }

  lemma {:induction false} TextIsPrintable(s: Octets)
    requires Text(s)
    ensures forall i :: 0 <= i < |s| ==> 32 <= s[i] <= 126
  {
    if s != [] {
      var n := if s[0] != 0x5c then 1 else if Quoted(s[1]) then 2 else 4;
      assert forall i :: 0 <= i < n ==> 32 <= s[i] <= 126;
      TextIsPrintable(s[n..]);
      assert forall i :: n <= i < |s| ==> s[i] == s[n..][i - n];
    }
  }

  /** Whatever the message, what is returned is such text, accepted or not. */
  lemma NameIsText(msg: Octets, off: nat)
    ensures Text(Unpack(msg, off).name)
    ensures forall i :: 0 <= i < |Unpack(msg, off).name| ==> 32 <= Unpack(msg, off).name[i] <= 126
  {
    hide Text, Follow, Stop, Present, NameOctets, WellKnown, Domain;
    TextRoot();
    var c := Follow(msg, off, 0);
    if c.Done? {
      TextPresent(c.labels);
      var tail := EndingIsFixed(msg, off, 0);
      if tail.AtFixed? {
        PresentDomain(tail.to);
        PresentAppend(c.labels, Domain(tail.to));
        TextPresent(c.labels + Domain(tail.to));
      }
    }
    TextIsPrintable(Unpack(msg, off).name);
  }

  /** Each byte on its own, as the only one of a label. */
  lemma ByteText(b: Byte)
    ensures Unpack([1, b, 0], 0) ==
            Unpacked((if Quoted(b) then [0x5c, b]
                      else if 32 <= b <= 126 then [b]
                      else [0x5c, 0x30 + b / 100, 0x30 + b / 10 % 10, 0x30 + b % 10]) + [0x2e], 3, false)
  {
    var msg: Octets := [1, b, 0];
    assert msg[1..2] == [b];
    FollowOne(msg);
    OneByte(b);
    hide Follow, Escape;
  }

  lemma FollowOne(msg: Octets)
    requires |msg| == 3 && msg[0] == 1 && msg[2] == 0
    ensures Follow(msg, 0, 0) == Done([msg[1..2]], Zero) && Stop(msg, 0) == 3
  {
    assert Follow(msg, 2, 0) == Done([], Zero);
    assert [msg[1..2]] + [] == [msg[1..2]];
    assert Stop(msg, 2) == 3;
  }

  lemma OneByte(b: Byte)
    ensures Present([[b]]) == Escape(b) + [0x2e] && NameOctets([[b]]) == 2
  {
    hide Escape;
    assert EscapeAll([b]) == Escape(b) + EscapeAll([]);
    assert Present([[b]]) == EscapeAll([b]) + [0x2e] + Present([]);
    assert NameOctets([[b]]) == 2 + NameOctets([]);
  }

  /** The texts of the four offsets that Wi-Fi Direct fixes; nothing for all others. */
  function FixedText(to: nat): (r: string)
    ensures forall i :: 0 <= i < |r| ==> r[i] < 128 as char
  {
    if to == 0x27 then ".QRY."
    else if to == 0x0c then "_tcp.local."
    else if to == 0x11 then "local."
    else if to == 0x1c then "_udp.local."
    else ""
  }

  /** The root is a single dot. */
  lemma RootText(msg: Octets, off: nat)
    requires off < |msg| && msg[off] == 0
    ensures Unpack(msg, off) == Unpacked([0x2e], off + 1, false)
  {
    assert Follow(msg, off, 0) == Done([], Zero);
  }

  /** Labels up to a pointer: to one of the four fixed offsets, and its text is added and nothing
      followed; to anywhere else, and the name goes on there. */
  lemma PointerOutcome(msg: Octets, off: nat, labels: seq<Octets>)
    requires ValidLabels(labels) && At(msg, off, Wire(labels)) && off + |Wire(labels)| + 1 < |msg|
    requires msg[off + |Wire(labels)|] >= 0xC0
    ensures var z := off + |Wire(labels)|;
            var high: int := msg[z];
            var to := (high - 0xC0) * 256 + msg[z + 1];
            if FixedText(to) != "" then
              Unpack(msg, off) == Unpacked(Present(labels) + Ascii(FixedText(to)), z + 2, false)
            else
              Follow(msg, off, 0) == Prepend(labels, Follow(msg, to, 1)) && Stop(msg, off) == z + 2
  {
    hide Wire, WellKnown, Follow, Stop, Present, At, ValidLabels, FixedText, Ascii, PointerAt;
    var z := off + |Wire(labels)|;
    FollowWire(msg, off, labels, 0);
    FixedTexts(PointerAt(msg, z));
    FollowPointer(msg, z);
    PrependDone(labels, [], Suffix(Ascii(FixedText(PointerAt(msg, z)))));
  }

  lemma FollowPointer(msg: Octets, z: nat)
    requires z + 1 < |msg| && msg[z] >= 0xC0
    ensures var to, high: int := PointerAt(msg, z), msg[z];
            && to == (high - 0xC0) * 256 + msg[z + 1]
            && Stop(msg, z) == z + 2
            && Follow(msg, z, 0) == if WellKnown(to).Some? then Done([], Suffix(WellKnown(to).value))
                                    else Follow(msg, to, 1)
  {
    hide WellKnown;
  }

  lemma FixedTexts(to: nat)
    ensures WellKnown(to) == if FixedText(to) == "" then None else Some(Ascii(FixedText(to)))
  {
    assert [DOT] + QRY + [DOT] == Ascii(".QRY.");
    assert TCP + [DOT] + (LOCAL + [DOT]) == Ascii("_tcp.local.");
    assert LOCAL + [DOT] == Ascii("local.");
    assert UDP + [DOT] + (LOCAL + [DOT]) == Ascii("_udp.local.");
  }

  /** A hop leads from labels to where the pointer behind them points. */
  lemma {:induction false} HopOfPointer(msg: Octets, off: nat, labels: seq<Octets>)
    requires ValidLabels(labels) && At(msg, off, Wire(labels)) && off + |Wire(labels)| + 1 < |msg|
    requires msg[off + |Wire(labels)|] >= 0xC0
    ensures var z := off + |Wire(labels)|;
            var high: int := msg[z];
            var to := (high - 0xC0) * 256 + msg[z + 1];
            NextHop(msg, off) == if FixedText(to) == "" then Some(to) else None
    decreases |labels|
  {
    hide Wire, WellKnown, At, ValidLabels, FixedText, Ascii, PointerAt;
    NoLabels(Bad);
    if labels == [] {
      FixedTexts(PointerAt(msg, off));
      FollowPointer(msg, off);
    } else {
      WireSplits(msg, off, labels);
      LengthByte(msg, off, labels[0]);
      HopOfPointer(msg, off + 1 + |labels[0]|, labels[1..]);
    }
  }

  lemma LengthByte(msg: Octets, off: nat, part: Octets)
    requires |part| <= 63 && At(msg, off, [|part|] + part)
    ensures off < |msg| && msg[off] == |part|
  {
    assert msg[off] == msg[off..off + 1 + |part|][0];
  }

  /** A name that breaks off, behind any labels, is refused with nothing but the length of the message:
      at the end of the message, at a reserved length byte, in a label or inside a pointer. */
  lemma BrokenRefused(msg: Octets, off: nat, labels: seq<Octets>)
    requires ValidLabels(labels) && At(msg, off, Wire(labels))
    requires var z := off + |Wire(labels)|;
             || z >= |msg| || 0x40 <= msg[z] < 0xC0
             || (0 < msg[z] < 0x40 && z + 1 + msg[z] > |msg|)
             || (msg[z] >= 0xC0 && z + 1 == |msg|)
    ensures Unpack(msg, off) == Unpacked([], |msg|, true)
  {
    FollowWire(msg, off, labels, 0);
    hide Wire, ValidLabels, At;
  }

  // ----- Which bytes make a name

  lemma LinkLabel(msg: Octets, off: nat, segments: seq<seq<Octets>>, tail: Tail)
    requires off < |msg| && 0 < msg[off] < 0x40 && off + 1 + msg[off] <= |msg|
    requires Chained(msg, off + 1 + msg[off], segments, tail)
    ensures var part := msg[off + 1..off + 1 + msg[off]];
            var longer := [[part] + segments[0]] + segments[1..];
            Chained(msg, off, longer, tail) && Flat(longer) == [part] + Flat(segments)
  {
    hide Wire, At, ValidLabels, PointerAt, WellKnown, Flat;
    var part := msg[off + 1..off + 1 + msg[off]];
    WireLabel(msg, off, segments[0]);
    FlatLonger(part, segments);
    SameRest(msg, off, off + 1 + msg[off], segments, [[part] + segments[0]] + segments[1..], tail);
  }

  /** A chain stays one when its first segment is exchanged for one that ends at the same place. */
  lemma SameRest(
      msg: Octets, off: nat, next: nat, segments: seq<seq<Octets>>, longer: seq<seq<Octets>>, tail: Tail)
    requires Chained(msg, next, segments, tail) && longer != [] && longer[1..] == segments[1..]
    requires ValidLabels(longer[0]) && At(msg, off, Wire(longer[0]))
    requires off + |Wire(longer[0])| == next + |Wire(segments[0])|
    ensures Chained(msg, off, longer, tail)
  {
    hide Wire, At, ValidLabels, PointerAt, WellKnown;
    assert |longer| == 1 + |longer[1..]| == |segments|;
  }

  lemma FlatLonger(part: Octets, segments: seq<seq<Octets>>)
    requires segments != []
    ensures var longer := [[part] + segments[0]] + segments[1..];
            longer[1..] == segments[1..] && Flat(longer) == [part] + Flat(segments)
  {
    hide Flat;
    var longer := [[part] + segments[0]] + segments[1..];
    assert longer[1..] == segments[1..];
    FlatMore(segments);
    FlatMore(longer);
    assert [part] + segments[0] + Flat(segments[1..]) == [part] + (segments[0] + Flat(segments[1..]));
  }

  lemma LinkPointer(msg: Octets, off: nat, segments: seq<seq<Octets>>, tail: Tail)
    requires off + 1 < |msg| && msg[off] >= 0xC0 && WellKnown(PointerAt(msg, off)).None?
    requires Chained(msg, PointerAt(msg, off), segments, tail)
    ensures Chained(msg, off, [[]] + segments, tail) && Flat([[]] + segments) == Flat(segments)
  {
    hide WellKnown, PointerAt;
    assert ([[]] + segments)[1..] == segments && [] + Flat(segments) == Flat(segments);
    assert At(msg, off, Wire([]));
  }

  lemma LinkNothing(msg: Octets, off: nat, tail: Tail)
    requires off < |msg|
    requires if tail.AtZero? then msg[off] == 0
             else off + 1 < |msg| && msg[off] >= 0xC0 && PointerAt(msg, off) == tail.to && WellKnown(tail.to).Some?
    ensures Chained(msg, off, [[]], tail) && Flat([[]]) == []
  {
    hide WellKnown, PointerAt;
    assert At(msg, off, Wire([]));
    var none: seq<seq<Octets>> := [[]];
    assert none[1..] == [];
  }

  lemma WireLabel(msg: Octets, off: nat, labels: seq<Octets>)
    requires off < |msg| && 0 < msg[off] < 0x40 && off + 1 + msg[off] <= |msg|
    requires ValidLabels(labels) && At(msg, off + 1 + msg[off], Wire(labels))
    ensures var l := [msg[off + 1..off + 1 + msg[off]]] + labels;
            ValidLabels(l) && At(msg, off, Wire(l)) && off + |Wire(l)| == off + 1 + msg[off] + |Wire(labels)|
  {
    var part := msg[off + 1..off + 1 + msg[off]];
    var l := [part] + labels;
    assert l[1..] == labels && l[0] == part;
    assert [msg[off]] + part == msg[off..off + 1 + msg[off]];
    AtParts(msg, off, [msg[off]] + part, Wire(labels));
  }

  /** Every accepted name is a chain, so that chains are all there is: whatever the message, a name is
      accepted exactly if segments of labels can be read off it, linked by at most ten pointers, that
      end at a fixed offset, or at a zero byte with fewer than 255 octets. */
  lemma {:induction false} DoneIsChain(msg: Octets, off: nat, ptr: nat)
    returns (segments: seq<seq<Octets>>, tail: Tail)
    requires ptr <= MAX_POINTERS && Follow(msg, off, ptr).Done?
    ensures Chained(msg, off, segments, tail) && Flat(segments) == Follow(msg, off, ptr).labels
    ensures ptr + Pointers(segments, tail) <= 10
    decreases MAX_POINTERS - ptr, |msg| - off
  {
    hide Chained, Flat, WellKnown, PointerAt;
    if msg[off] == 0 {
      segments, tail := [[]], AtZero;
      LinkNothing(msg, off, tail);
    } else if msg[off] >= 0xC0 {
      var to := PointerAt(msg, off);
      if WellKnown(to).Some? {
        segments, tail := [[]], AtFixed(to);
        LinkNothing(msg, off, tail);
      } else {
        segments, tail := DoneIsChain(msg, to, ptr + 1);
        LinkPointer(msg, off, segments, tail);
        segments := [[]] + segments;
      }
    } else {
      segments, tail := DoneIsChain(msg, off + 1 + msg[off], ptr);
      LinkLabel(msg, off, segments, tail);
      ChainLink(msg, off + 1 + msg[off], segments, tail);
      segments := [[msg[off + 1..off + 1 + msg[off]]] + segments[0]] + segments[1..];
    }
  }

  lemma AcceptedIsChain(msg: Octets, off: nat) returns (segments: seq<seq<Octets>>, tail: Tail)
    requires !Unpack(msg, off).err
    ensures Chained(msg, off, segments, tail) && Pointers(segments, tail) <= 10
    ensures tail.AtZero? ==> NameOctets(Flat(segments)) < 255
  {
    segments, tail := DoneIsChain(msg, off, 0);
    FollowChain(msg, off, segments, tail, 0);
    hide Chained, Follow, Flat, NameOctets, Present, Stop;
  }

  /** A refusal either returns nothing, or the whole text of a name ended by a zero byte whose octets
      are 255 or more. */
  lemma RefusedMeans(msg: Octets, off: nat)
    requires Unpack(msg, off).err
    ensures var r := Unpack(msg, off);
            && r.end == |msg|
            && (r.name == []
                || exists labels ::
                     ValidLabels(labels) && |Wire(labels)| >= 255 && Names(r.name) == Some(labels))
  {
    hide Follow, Present, NameOctets, Wire, Names, ValidLabels, Taken;
    if Follow(msg, off, 0).Done? {
      var labels := Follow(msg, off, 0).labels;
      FollowTaken(msg, off, 0);
      TakenValid(msg, off, 0);
      WireLength(labels);
      NoOctets();
      ZeroName(labels);
      assert labels + [] == labels;
    }
  }
}
