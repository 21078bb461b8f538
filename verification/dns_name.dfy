/**
 The compressed-name reader of the DNS-SD codec. `UnpackDomainName` is the reader with its
 offsets, pointer count and moving length limit; `Unpack` says what it returns in terms of
 labels and unescaped octets (RFC 1035 sections 2.3.4, 3.1, 4.1.4 and 5.1).
 */
module DnsName {
  import opened Bytes

  const DOT: Byte := 0x2e
  const BACKSLASH: Byte := 0x5c
  const MAX_NAME := 255
  const MAX_POINTERS := 10

  const QRY: Octets := Ascii("QRY")
  const TCP: Octets := Ascii("_tcp")
  const UDP: Octets := Ascii("_udp")
  const LOCAL: Octets := Ascii("local")

  /** The texts the reader appends when a pointer leads to one of the offsets that
      Wi-Fi Direct fixes: ".QRY.", "_tcp.local.", "local." and "_udp.local.". */
  function WellKnown(to: nat): Option<Octets> {
    if to == 0x27 then Some([DOT] + QRY + [DOT])
    else if to == 0x0c then Some(TCP + [DOT] + (LOCAL + [DOT]))
    else if to == 0x11 then Some(LOCAL + [DOT])
    else if to == 0x1c then Some(UDP + [DOT] + (LOCAL + [DOT]))
    else None
  }

  // ----- Presentation form

  /** Bytes written as \X. */
  predicate Special(b: Byte) {
    b == DOT || b == 0x28 || b == 0x29 || b == 0x3b || b == 0x20 || b == 0x40 || b == 0x22 || b == BACKSLASH
  }

  predicate Unprintable(b: Byte) {
    b < 32 || b >= 127
  }

  predicate Digit(b: Byte) {
    0x30 <= b <= 0x39
  }

  function Escape(b: Byte): Octets {
    if Special(b) then [BACKSLASH, b]
    else if Unprintable(b) then [BACKSLASH, 0x30 + b / 100, 0x30 + b / 10 % 10, 0x30 + b % 10]
    else [b]
  }

  function EscapeAll(part: Octets): Octets {
    if part == [] then [] else Escape(part[0]) + EscapeAll(part[1..])
  }

  function Present(labels: seq<Octets>): Octets {
    if labels == [] then [] else EscapeAll(labels[0]) + [DOT] + Present(labels[1..])
  }

  /** Reads presentation form back: undoes \X and \DDD, and ends a label at each bare dot. */
  function Read(s: Octets, part: Octets): Option<seq<Octets>>
    decreases |s|
  {
    if s == [] then
      if part == [] then Some([]) else None
    else if s[0] == DOT then
      match Read(s[1..], [])
      case None => None
      case Some(rest) => Some([part] + rest)
    else if s[0] != BACKSLASH then
      Read(s[1..], part + [s[0]])
    else if |s| >= 4 && Digit(s[1]) && Digit(s[2]) && Digit(s[3]) then
      var d1: int, d2: int, d3: int := s[1], s[2], s[3];
      var v := 100 * (d1 - 0x30) + 10 * (d2 - 0x30) + (d3 - 0x30);
      if v < 256 then Read(s[4..], part + [v]) else None
    else if |s| >= 2 && !Digit(s[1]) then
      Read(s[2..], part + [s[1]])
    else
      None
  }

  /** The labels a name stands for; the root is written as a single dot. */
  function Names(s: Octets): Option<seq<Octets>> {
    if s == [DOT] then Some([]) else Read(s, [])
  }

  // ----- Wire form

  predicate ValidLabels(labels: seq<Octets>) {
    forall i :: 0 <= i < |labels| ==> 1 <= |labels[i]| <= 63
  }

  function Wire(labels: seq<Octets>): Octets
    requires ValidLabels(labels)
  {
    if labels == [] then [] else [|labels[0]|] + labels[0] + Wire(labels[1..])
  }

  /** Unescaped length: the octets of each label and one more per label. */
  function NameOctets(labels: seq<Octets>): nat {
    if labels == [] then 0 else |labels[0]| + 1 + NameOctets(labels[1..])
  }

  datatype Ending = Zero | Suffix(text: Octets)
  datatype Chain = Bad | Done(labels: seq<Octets>, ending: Ending)

  function PointerAt(msg: Octets, off: nat): nat
    requires off + 1 < |msg| && msg[off] >= 0xC0
  {
    var c: int := msg[off];
    (c - 0xC0) * 256 + msg[off + 1]
  }

  /** The labels met from `off` on, through pointers, when `ptr` of them were followed before. */
  function Follow(msg: Octets, off: nat, ptr: nat): Chain
    requires ptr <= MAX_POINTERS
    decreases MAX_POINTERS - ptr, |msg| - off
  {
    if off >= |msg| then Bad
    else if msg[off] == 0 then Done([], Zero)
    else if msg[off] < 0x40 then
      var next := off + 1 + msg[off];
      if next > |msg| then Bad else Prepend([msg[off + 1..next]], Follow(msg, next, ptr))
    else if msg[off] < 0xC0 || off + 1 >= |msg| || ptr == MAX_POINTERS then Bad
    else
      match WellKnown(PointerAt(msg, off))
      case Some(text) => Done([], Suffix(text))
      case None => Follow(msg, PointerAt(msg, off), ptr + 1)
  }

  function Prepend(labels: seq<Octets>, c: Chain): Chain {
    if c.Bad? then Bad else Done(labels + c.labels, c.ending)
  }

  /** Where the name stops in the message: past its terminator or past its first pointer. */
  function Stop(msg: Octets, off: nat): nat
    decreases |msg| - off
  {
    if off >= |msg| then |msg|
    else if msg[off] == 0 then off + 1
    else if msg[off] < 0x40 then Stop(msg, off + 1 + msg[off])
    else off + 2
  }

  /** What the reader returns: `end` is the length of the message on every error. */
  datatype Unpacked = Unpacked(name: Octets, end: nat, err: bool)

  function Unpack(msg: Octets, off: nat): Unpacked {
    match Follow(msg, off, 0)
    case Bad => Unpacked([], |msg|, true)
    case Done(labels, Suffix(text)) => Unpacked(Present(labels) + text, Stop(msg, off), false)
    case Done(labels, Zero) =>
      if NameOctets(labels) >= MAX_NAME then Unpacked(Present(labels), |msg|, true)
      else Unpacked(if labels == [] then [DOT] else Present(labels), Stop(msg, off), false)
  }

  // ----- The reader

  /** `strconv.AppendInt` in base ten, for a byte. */
  function Decimal(b: Byte): (r: Octets)
    ensures 1 <= |r| <= 3
  {
    if b < 10 then [0x30 + b]
    else if b < 100 then [0x30 + b / 10, 0x30 + b % 10]
    else [0x30 + b / 100, 0x30 + b / 10 % 10, 0x30 + b % 10]
  }

  /** One byte of a part: each extra byte an escape costs also raises the limit. */
  method AppendEscaped(s0: Octets, b: Byte, maxLen0: int) returns (s: Octets, maxLen: int)
    ensures s == s0 + Escape(b)
    ensures maxLen == maxLen0 + |Escape(b)| - 1
  {
    hide Decimal, Escape;
    EscapeCases(b);
    s, maxLen := s0, maxLen0;
    if Special(b) {
      s := s + [BACKSLASH, b];
      maxLen := maxLen + 1;
    } else if b < 32 || b >= 127 {
      var bufs := Decimal(b);
      s := s + [BACKSLASH];
      for i := 0 to 3 - |bufs|
        invariant s == s0 + [BACKSLASH] + seq(i, _ => 0x30)
      {
        s := s + [0x30];
      }
      s := s + bufs;
      maxLen := maxLen + 3;
    } else {
      s := s + [b];
    }
  }

  lemma EscapeCases(b: Byte)
    ensures if Special(b) then Escape(b) == [BACKSLASH, b]
            else if Unprintable(b) then
              |Escape(b)| == 4 && [BACKSLASH] + seq(3 - |Decimal(b)|, _ => 0x30) + Decimal(b) == Escape(b)
            else Escape(b) == [b]
  {
  }

  /** The copy of one label, `msg[from..to]`, and the dot after it. */
  method AppendLabel(s0: Octets, msg: Octets, from: nat, to: nat, maxLen0: int, ghost done0: seq<Octets>)
    returns (s: Octets, maxLen: int, ghost done: seq<Octets>)
    requires from <= to <= |msg| && s0 == Present(done0)
    requires |s0| - (maxLen0 - MAX_NAME) == NameOctets(done0)
    ensures done == done0 + [msg[from..to]]
    ensures s == Present(done0 + [msg[from..to]])
    ensures |s| - (maxLen - MAX_NAME) == NameOctets(done0 + [msg[from..to]])
  {
    hide Escape, EscapeAll, Present, NameOctets;
    s, maxLen := s0, maxLen0;
    NothingEscaped();
    assert msg[from..from] == [];
    for j := from to to
      invariant s == s0 + EscapeAll(msg[from..j])
      invariant maxLen - maxLen0 == |s| - |s0| - (j - from)
    {
      s, maxLen := AppendEscaped(s, msg[j], maxLen);
      EscapeAllNext(s0, msg, from, j);
    }
    s := s + [DOT];
    done := done0 + [msg[from..to]];
    OneMore(done0, msg[from..to]);
  }

  /** `built` is the length of the text when the reader stops, whatever the outcome. */
  method UnpackDomainName(msg: Octets, start: nat) returns (r: Unpacked, ghost built: nat)
    ensures r == Unpack(msg, start)
    ensures built == |Present(Taken(msg, start, 0))| && |r.name| <= built + 11
  {
    hide Reading, Took, Taken, Follow, Stop, Unpack, Present, NameOctets, WellKnown;
    var s: Octets := [];
    var off: nat, off1: nat, maxLen: int, ptr: nat := start, 0, MAX_NAME, 0;
    ghost var done: seq<Octets> := [];
    built := 0;
    Begins(msg, start);
    while true
      invariant ptr <= MAX_POINTERS && Reading(msg, start, off, ptr, off1, done)
      invariant s == Present(done) && built == |s|
      invariant |s| - (maxLen - MAX_NAME) == NameOctets(done)
      invariant Took(msg, start, off, ptr, done)
      decreases MAX_POINTERS - ptr, |msg| - off
    {
      ghost var at := off;
      if off >= |msg| {
        Fails(msg, start, at, ptr, off1, done);
        TookAll(msg, start, at, ptr, done);
        r := Unpacked([], |msg|, true);
        return;
      }
      var c: int := msg[off];
      off := off + 1;
      // The two top bits choose the case: 00, then 11; 01 and 10 are reserved.
      if c < 0x40 {
        if c == 0 {
          EndsAtZero(msg, start, at, ptr, off1, done);
          TookAll(msg, start, at, ptr, done);
          break;
        }
        if off + c > |msg| {
          Fails(msg, start, at, ptr, off1, done);
          TookAll(msg, start, at, ptr, done);
          r := Unpacked([], |msg|, true);
          return;
        }
        TakesLabel(msg, start, at, ptr, off1, done);
        TookLabel(msg, start, at, ptr, done);
        s, maxLen, done := AppendLabel(s, msg, off, off + c, maxLen, done);
        off := off + c;
        built := |s|;
      } else if c >= 0xC0 {
        if off >= |msg| {
          Fails(msg, start, at, ptr, off1, done);
          TookAll(msg, start, at, ptr, done);
          r := Unpacked([], |msg|, true);
          return;
        }
        TakesPointer(msg, start, at, ptr, off1, done);
        TookPointer(msg, start, at, ptr, done);
        var c1 := msg[off];
        off := off + 1;
        if ptr == 0 {
          off1 := off;
        }
        ptr := ptr + 1;
        if ptr > MAX_POINTERS {
          r := Unpacked([], |msg|, true);
          return;
        }
        off := (c - 0xC0) * 256 + c1;
        var text := WellKnown(off);
        if text.Some? {
          WellKnownLength(off);
          r := Unpacked(s + text.value, off1, false);
          return;
        }
      } else {
        Fails(msg, start, at, ptr, off1, done);
        TookAll(msg, start, at, ptr, done);
        r := Unpacked([], |msg|, true);
        return;
      }
    }
    if ptr == 0 {
      off1 := off;
    }
    if |s| == 0 {
      s := [DOT];
    } else if |s| >= maxLen {
      r := Unpacked(s, |msg|, true);
      return;
    }
    r := Unpacked(s, off1, false);
  }

  lemma Begins(msg: Octets, start: nat)
    ensures Reading(msg, start, start, 0, 0, []) && Took(msg, start, start, 0, [])
    ensures Present([]) == [] && NameOctets([]) == 0
  {
    var c := Follow(msg, start, 0);
    assert c.Done? ==> [] + c.labels == c.labels;
    assert [] + Taken(msg, start, 0) == Taken(msg, start, 0);
  }

  lemma NothingEscaped()
    ensures EscapeAll([]) == []
  {
  }

  // ----- How much is built on the way

  /** The bytes that a number of passes over the message can meet. */
  function Passes(k: nat, n: nat): nat {
    k * n
  }

  lemma PassesNext(k: nat, n: nat)
    ensures Passes(0, n) == 0 && Passes(k + 1, n) == Passes(k, n) + n && Passes(10, n) == 10 * n
  {
  }

  /** The labels the reader takes from `off` on, whether it ends with a name or gives up. */
  function Taken(msg: Octets, off: nat, ptr: nat): seq<Octets>
    requires ptr <= MAX_POINTERS
    decreases MAX_POINTERS - ptr, |msg| - off
  {
    if off >= |msg| || msg[off] == 0 then []
    else if msg[off] < 0x40 then
      var next := off + 1 + msg[off];
      if next > |msg| then [] else [msg[off + 1..next]] + Taken(msg, next, ptr)
    else if msg[off] < 0xC0 || off + 1 >= |msg| || ptr == MAX_POINTERS then []
    else if WellKnown(PointerAt(msg, off)).Some? then []
    else Taken(msg, PointerAt(msg, off), ptr + 1)
  }

  ghost predicate Took(msg: Octets, start: nat, off: nat, ptr: nat, done: seq<Octets>)
    requires ptr <= MAX_POINTERS
  {
    Taken(msg, start, 0) == done + Taken(msg, off, ptr)
  }

  lemma TookLabel(msg: Octets, start: nat, at: nat, ptr: nat, done: seq<Octets>)
    requires ptr <= MAX_POINTERS && Took(msg, start, at, ptr, done)
    requires at < |msg| && 0 < msg[at] < 0x40 && at + 1 + msg[at] <= |msg|
    ensures var next := at + 1 + msg[at]; Took(msg, start, next, ptr, done + [msg[at + 1..next]])
  {
  }

  /** The eleventh pointer ends it, and so does one to a fixed offset. */
  lemma TookPointer(msg: Octets, start: nat, at: nat, ptr: nat, done: seq<Octets>)
    requires ptr <= MAX_POINTERS && Took(msg, start, at, ptr, done)
    requires at + 1 < |msg| && msg[at] >= 0xC0
    ensures if ptr == MAX_POINTERS || WellKnown(PointerAt(msg, at)).Some? then Taken(msg, start, 0) == done
            else Took(msg, start, PointerAt(msg, at), ptr + 1, done)
  {
  }

  lemma TookAll(msg: Octets, start: nat, at: nat, ptr: nat, done: seq<Octets>)
    requires ptr <= MAX_POINTERS && Took(msg, start, at, ptr, done)
    requires at < |msg| ==>
               || msg[at] == 0 || 0x40 <= msg[at] < 0xC0
               || (msg[at] < 0x40 && at + 1 + msg[at] > |msg|)
               || (0xC0 <= msg[at] && at + 1 == |msg|)
    ensures Taken(msg, start, 0) == done
  {
  }

  lemma WellKnownLength(to: nat)
    ensures WellKnown(to).Some? ==> |WellKnown(to).value| <= 11
  {
  }

  /** What the reader has done when it is about to look at `off`: the whole name is the labels
      it took and those still ahead, and `off1` is kept from the first pointer on. */
  ghost predicate Reading(msg: Octets, start: nat, off: nat, ptr: nat, off1: nat, done: seq<Octets>) {
    && ptr <= MAX_POINTERS
    && Follow(msg, start, 0) == Prepend(done, Follow(msg, off, ptr))
    && Stop(msg, start) == if ptr == 0 then Stop(msg, off) else off1
  }

  lemma Fails(msg: Octets, start: nat, at: nat, ptr: nat, off1: nat, done: seq<Octets>)
    requires Reading(msg, start, at, ptr, off1, done)
    requires at < |msg| ==>
               || 0x40 <= msg[at] < 0xC0
               || (0 < msg[at] < 0x40 && at + 1 + msg[at] > |msg|)
               || (0xC0 <= msg[at] && at + 1 == |msg|)
    ensures Unpack(msg, start) == Unpacked([], |msg|, true)
  {
  }

  lemma EndsAtZero(msg: Octets, start: nat, at: nat, ptr: nat, off1: nat, done: seq<Octets>)
    requires Reading(msg, start, at, ptr, off1, done) && at < |msg| && msg[at] == 0
    ensures var s := Present(done);
            var end := if ptr == 0 then at + 1 else off1;
            && (s == [] <==> done == [])
            && Unpack(msg, start) ==
               if NameOctets(done) >= MAX_NAME then Unpacked(s, |msg|, true)
               else Unpacked(if s == [] then [DOT] else s, end, false)
  {
    assert done + [] == done;
  }

  lemma TakesLabel(msg: Octets, start: nat, at: nat, ptr: nat, off1: nat, done: seq<Octets>)
    requires Reading(msg, start, at, ptr, off1, done)
    requires at < |msg| && 0 < msg[at] < 0x40 && at + 1 + msg[at] <= |msg|
    ensures var next := at + 1 + msg[at];
            var part := msg[at + 1..next];
            Reading(msg, start, next, ptr, off1, done + [part])
  {
    var next := at + 1 + msg[at];
    var part := msg[at + 1..next];
    PrependPrepend(done, [part], Follow(msg, next, ptr));
  }

  lemma OneMore(done: seq<Octets>, part: Octets)
    ensures Present(done + [part]) == Present(done) + EscapeAll(part) + [DOT]
    ensures NameOctets(done + [part]) == NameOctets(done) + |part| + 1
  {
    PresentAppend(done, [part]);
    assert Present([part]) == EscapeAll(part) + [DOT] + Present([]);
    NameOctetsAppend(done, [part]);
    assert NameOctets([part]) == |part| + 1 + NameOctets([]);
  }

  lemma TakesPointer(msg: Octets, start: nat, at: nat, ptr: nat, off1: nat, done: seq<Octets>)
    requires Reading(msg, start, at, ptr, off1, done)
    requires at + 1 < |msg| && msg[at] >= 0xC0
    ensures var to := PointerAt(msg, at);
            var end := if ptr == 0 then at + 2 else off1;
            if ptr == MAX_POINTERS then Unpack(msg, start) == Unpacked([], |msg|, true)
            else if WellKnown(to).Some? then
              Unpack(msg, start) == Unpacked(Present(done) + WellKnown(to).value, end, false)
            else Reading(msg, start, to, ptr + 1, end, done)
  {
    assert done + [] == done;
  }

  lemma {:induction false} EscapeAllAppend(a: Octets, b: Octets)
    ensures EscapeAll(a + b) == EscapeAll(a) + EscapeAll(b)
  {
    if a == [] {
      assert a + b == b;
    } else {
      assert (a + b)[1..] == a[1..] + b;
      EscapeAllAppend(a[1..], b);
    }
  }

  lemma EscapeAllNext(s0: Octets, msg: Octets, from: nat, j: nat)
    requires from <= j < |msg|
    ensures s0 + EscapeAll(msg[from..j + 1]) == s0 + EscapeAll(msg[from..j]) + Escape(msg[j])
  {
    assert msg[from..j + 1] == msg[from..j] + [msg[j]];
    EscapeAllAppend(msg[from..j], [msg[j]]);
    assert EscapeAll([msg[j]]) == Escape(msg[j]) + EscapeAll([]);
  }

  lemma {:induction false} PresentAppend(a: seq<Octets>, b: seq<Octets>)
    ensures Present(a + b) == Present(a) + Present(b)
  {
    if a == [] {
      assert a + b == b;
    } else {
      assert (a + b)[1..] == a[1..] + b;
      PresentAppend(a[1..], b);
    }
  }

  lemma {:induction false} NameOctetsAppend(a: seq<Octets>, b: seq<Octets>)
    ensures NameOctets(a + b) == NameOctets(a) + NameOctets(b)
  {
    if a == [] {
      assert a + b == b;
    } else {
      assert (a + b)[1..] == a[1..] + b;
      NameOctetsAppend(a[1..], b);
    }
  }

  lemma PrependPrepend(a: seq<Octets>, b: seq<Octets>, c: Chain)
    ensures Prepend(a, Prepend(b, c)) == Prepend(a + b, c)
  {
    if c.Done? {
      assert a + (b + c.labels) == a + b + c.labels;
    }
  }

  // ----- Reading a name back

  lemma WireSplits(msg: Octets, off: nat, labels: seq<Octets>)
    requires ValidLabels(labels) && labels != [] && At(msg, off, Wire(labels))
    ensures var l, rest := labels[0], labels[1..];
            && 1 <= |l| <= 63 && ValidLabels(rest) && |Wire(labels)| == 1 + |l| + |Wire(rest)|
            && At(msg, off, [|l|] + l) && At(msg, off + 1 + |l|, Wire(rest))
  {
    hide At;
    AtParts(msg, off, [|labels[0]|] + labels[0], Wire(labels[1..]));
  }

  lemma NoLabels(c: Chain)
    ensures Wire([]) == [] && Prepend([], c) == c
  {
    assert c.Done? ==> [] + c.labels == c.labels;
  }

  /** The labels laid out at `off` come first, whatever follows them. */
  lemma {:induction false} FollowWire(msg: Octets, off: nat, labels: seq<Octets>, ptr: nat)
    requires ptr <= MAX_POINTERS && ValidLabels(labels)
    requires At(msg, off, Wire(labels))
    ensures Follow(msg, off, ptr) == Prepend(labels, Follow(msg, off + |Wire(labels)|, ptr))
    ensures Stop(msg, off) == Stop(msg, off + |Wire(labels)|)
    decreases |labels|
  {
    hide Wire, Follow, Stop, Prepend, At;
    if labels == [] {
      NoLabels(Follow(msg, off, ptr));
    } else {
      var l, rest := labels[0], labels[1..];
      WireSplits(msg, off, labels);
      FollowLabel(msg, off, l, ptr);
      FollowWire(msg, off + 1 + |l|, rest, ptr);
      PrependHead(labels, Follow(msg, off + |Wire(labels)|, ptr));
    }
  }

  lemma PrependHead(labels: seq<Octets>, c: Chain)
    requires labels != []
    ensures Prepend([labels[0]], Prepend(labels[1..], c)) == Prepend(labels, c)
  {
    assert [labels[0]] + labels[1..] == labels;
    PrependPrepend([labels[0]], labels[1..], c);
  }

  lemma FollowLabel(msg: Octets, off: nat, part: Octets, ptr: nat)
    requires ptr <= MAX_POINTERS && 1 <= |part| <= 63 && At(msg, off, [|part|] + part)
    ensures Follow(msg, off, ptr) == Prepend([part], Follow(msg, off + 1 + |part|, ptr))
    ensures Stop(msg, off) == Stop(msg, off + 1 + |part|)
  {
    AtParts(msg, off, [|part|], part);
    assert msg[off] == msg[off..off + 1][0] == |part|;
  }

  lemma {:induction false} WireLength(labels: seq<Octets>)
    requires ValidLabels(labels)
    ensures |Wire(labels)| == NameOctets(labels)
  {
    if labels != [] {
      WireLength(labels[1..]);
    }
  }

  lemma ReadPlain(b: Byte, rest: Octets, part: Octets)
    requires !Special(b)
    ensures Read([b] + rest, part) == Read(rest, part + [b])
  {
    assert ([b] + rest)[1..] == rest;
  }

  lemma ReadQuoted(b: Byte, rest: Octets, part: Octets)
    requires !Digit(b)
    ensures Read([BACKSLASH, b] + rest, part) == Read(rest, part + [b])
  {
    var s := [BACKSLASH, b] + rest;
    assert s[2..] == rest && s[0] == BACKSLASH && s[1] == b;
  }

  lemma ReadDigits(d1: Byte, d2: Byte, d3: Byte, b: Byte, rest: Octets, part: Octets)
    requires Digit(d1) && Digit(d2) && Digit(d3) && b == 100 * (d1 - 0x30) + 10 * (d2 - 0x30) + (d3 - 0x30)
    ensures Read([BACKSLASH, d1, d2, d3] + rest, part) == Read(rest, part + [b])
  {
    var s := [BACKSLASH, d1, d2, d3] + rest;
    assert s[4..] == rest && s[0] == BACKSLASH && s[1] == d1 && s[2] == d2 && s[3] == d3;
  }

  lemma ReadEscape(b: Byte, rest: Octets, part: Octets)
    ensures Read(Escape(b) + rest, part) == Read(rest, part + [b])
  {
    hide Read;
    if Special(b) {
      assert Escape(b) == [BACKSLASH, b];
      ReadQuoted(b, rest, part);
    } else if Unprintable(b) {
      ReadDigits(0x30 + b / 100, 0x30 + b / 10 % 10, 0x30 + b % 10, b, rest, part);
    } else {
      ReadPlain(b, rest, part);
    }
  }

  lemma {:induction false} ReadEscapeAll(body: Octets, rest: Octets, part: Octets)
    ensures Read(EscapeAll(body) + rest, part) == Read(rest, part + body)
    decreases |body|
  {
    hide Read, Escape;
    if body == [] {
      assert EscapeAll(body) + rest == rest && part + body == part;
    } else {
      var tail := EscapeAll(body[1..]) + rest;
      assert EscapeAll(body) + rest == Escape(body[0]) + tail;
      ReadEscape(body[0], tail, part);
      ReadEscapeAll(body[1..], rest, part + [body[0]]);
      assert part + [body[0]] + body[1..] == part + body;
    }
  }

  function Joined(labels: seq<Octets>, rest: Option<seq<Octets>>): Option<seq<Octets>> {
    match rest case None => None case Some(more) => Some(labels + more)
  }

  lemma JoinedJoined(a: seq<Octets>, b: seq<Octets>, rest: Option<seq<Octets>>)
    ensures Joined(a, Joined(b, rest)) == Joined(a + b, rest)
  {
    if rest.Some? {
      assert a + (b + rest.value) == a + b + rest.value;
    }
  }

  lemma JoinedNone(rest: Option<seq<Octets>>)
    ensures Joined([], rest) == rest
  {
    if rest.Some? {
      assert [] + rest.value == rest.value;
    }
  }

  lemma PresentThen(labels: seq<Octets>, rest: Octets)
    ensures Present(labels) + rest ==
            if labels == [] then rest else EscapeAll(labels[0]) + ([DOT] + (Present(labels[1..]) + rest))
    ensures labels != [] ==> [labels[0]] + labels[1..] == labels
  {
  }

  lemma ReadLabel(part: Octets, tail: Octets)
    ensures Read(EscapeAll(part) + ([DOT] + tail), []) == Joined([part], Read(tail, []))
  {
    ReadEscapeAll(part, [DOT] + tail, []);
    assert ([DOT] + tail)[1..] == tail && [] + part == part;
  }

  /** Undoing the escapes of a presented name, with more text after it, gives back the labels. */
  lemma {:induction false} ReadPresent(labels: seq<Octets>, rest: Octets)
    ensures Read(Present(labels) + rest, []) == Joined(labels, Read(rest, []))
    decreases |labels|
  {
    PresentThen(labels, rest);
    if labels == [] {
      JoinedNone(Read(rest, []));
    } else {
      var tail := Present(labels[1..]) + rest;
      ReadLabel(labels[0], tail);
      ReadPresent(labels[1..], rest);
      JoinedJoined([labels[0]], labels[1..], Read(rest, []));
    }
  }

  lemma TwoBytes(labels: seq<Octets>)
    requires labels != [] && labels != [[]]
    ensures |Present(labels)| >= 2
  {
    if labels[0] == [] {
      assert labels == [labels[0]] + labels[1..];
      assert labels[1..] != [] && |Present(labels[1..])| >= 1;
    } else {
      assert |EscapeAll(labels[0])| >= 1;
    }
  }

  lemma NamesOfPresent(labels: seq<Octets>)
    requires labels != [] && labels != [[]]
    ensures Present(labels) != [] && Names(Present(labels)) == Some(labels)
  {
    var s := Present(labels);
    TwoBytes(labels);
    ReadPresent(labels, []);
    assert s + [] == s && labels + [] == labels;
  }

  predicate Plain(part: Octets) {
    forall i :: 0 <= i < |part| ==> !Special(part[i]) && !Unprintable(part[i])
  }

  lemma {:induction false} EscapePlain(part: Octets)
    requires Plain(part)
    ensures EscapeAll(part) == part
  {
    if part != [] {
      EscapePlain(part[1..]);
    }
  }

  /** The labels behind the well-known offsets. ".QRY." starts with a dot, which reads as an empty
      label. */
  function Domain(to: nat): (labels: seq<Octets>)
    requires WellKnown(to).Some?
    ensures labels != [] && labels != [[]]
    ensures to != 0x27 ==> ValidLabels(labels)
  {
    PlainDomains();
    if to == 0x0c then [TCP, LOCAL] else if to == 0x11 then [LOCAL] else if to == 0x1c then [UDP, LOCAL] else [[], QRY]
  }

  lemma PresentPlain(part: Octets, rest: seq<Octets>)
    requires Plain(part)
    ensures Present([part] + rest) == part + [DOT] + Present(rest)
  {
    EscapePlain(part);
    assert ([part] + rest)[1..] == rest;
  }

  lemma PresentLocal()
    ensures Plain(LOCAL) && Present([LOCAL]) == LOCAL + [DOT]
  {
    PlainDomains();
    hide Plain;
    PresentPlain(LOCAL, []);
    assert [LOCAL] + [] == [LOCAL] && LOCAL + [DOT] + [] == LOCAL + [DOT];
  }

  lemma PresentDomain(to: nat)
    requires WellKnown(to).Some?
    ensures WellKnown(to) == Some(Present(Domain(to)))
  {
    PlainDomains();
    PresentLocal();
    PresentQuery();
    hide Present, Plain;
    if to != 0x11 && to != 0x27 {
      var first := if to == 0x0c then TCP else UDP;
      PresentPlain(first, [LOCAL]);
      assert [first] + [LOCAL] == Domain(to);
    }
  }

  lemma PresentQuery()
    ensures Present([[], QRY]) == [DOT] + QRY + [DOT]
  {
    PlainDomains();
    hide Plain;
    PresentPlain(QRY, []);
    assert [QRY] + [] == [QRY] && QRY + [DOT] + [] == QRY + [DOT];
    assert [[], QRY][1..] == [QRY];
    NothingEscaped();
  }

  lemma PlainDomains()
    ensures Plain(TCP) && Plain(UDP) && Plain(LOCAL) && Plain(QRY)
    ensures |TCP| == |UDP| == 4 && |LOCAL| == 5 && |QRY| == 3
  {
  }

  // ----- Compressed names

  /** How the last segment ends: a zero byte, or a pointer to one of the fixed offsets. */
  datatype Tail = AtZero | AtFixed(to: nat)

  /** Segments of labels, the first at `off`, each but the last with a pointer to the next behind it
      and the last with `tail`. */
  ghost predicate Chained(msg: Octets, off: nat, segments: seq<seq<Octets>>, tail: Tail)
    decreases |segments|
  {
    && segments != [] && ValidLabels(segments[0]) && At(msg, off, Wire(segments[0]))
    && var z := off + |Wire(segments[0])|;
       if |segments| > 1 then
         && z + 1 < |msg| && msg[z] >= 0xC0 && WellKnown(PointerAt(msg, z)).None?
         && Chained(msg, PointerAt(msg, z), segments[1..], tail)
       else if tail.AtZero? then z < |msg| && msg[z] == 0
       else z + 1 < |msg| && msg[z] >= 0xC0 && PointerAt(msg, z) == tail.to && WellKnown(tail.to).Some?
  }

  function Flat(segments: seq<seq<Octets>>): seq<Octets> {
    if segments == [] then [] else segments[0] + Flat(segments[1..])
  }

  function EndingOf(tail: Tail): Ending
    requires tail.AtFixed? ==> WellKnown(tail.to).Some?
  {
    if tail.AtZero? then Zero else Suffix(WellKnown(tail.to).value)
  }

  /** The pointers a chain needs. */
  function Pointers(segments: seq<seq<Octets>>, tail: Tail): int {
    |segments| - if tail.AtZero? then 1 else 0
  }

  /** The first segment of a chain and what is behind it. */
  lemma ChainLink(msg: Octets, off: nat, segments: seq<seq<Octets>>, tail: Tail)
    requires Chained(msg, off, segments, tail)
    ensures segments != [] && ValidLabels(segments[0])
    ensures tail.AtFixed? ==> WellKnown(tail.to).Some?
    ensures var z := off + |Wire(segments[0])|;
            if |segments| == 1 then Flat(segments) == segments[0]
            else z + 1 < |msg| && msg[z] >= 0xC0 && Chained(msg, PointerAt(msg, z), segments[1..], tail)
    decreases |segments|
  {
    hide Wire, At, ValidLabels, WellKnown, PointerAt;
    if |segments| == 1 {
      assert segments[1..] == [] && segments[0] + [] == segments[0];
    } else {
      ChainLink(msg, PointerAt(msg, off + |Wire(segments[0])|), segments[1..], tail);
    }
  }

  lemma FollowLink(msg: Octets, off: nat, segments: seq<seq<Octets>>, tail: Tail, ptr: nat)
    requires ptr <= MAX_POINTERS && Chained(msg, off, segments, tail)
    ensures ValidLabels(segments[0])
    ensures var z := off + |Wire(segments[0])|;
            && (|segments| > 1 ==> z + 1 < |msg| && msg[z] >= 0xC0)
            && (tail.AtFixed? ==> WellKnown(tail.to).Some?)
            && Follow(msg, off, ptr) ==
               Prepend(segments[0], if |segments| > 1 then
                                      if ptr == MAX_POINTERS then Bad else Follow(msg, PointerAt(msg, z), ptr + 1)
                                    else if tail.AtFixed? && ptr == MAX_POINTERS then Bad
                                    else Done([], EndingOf(tail)))
            && Stop(msg, off) == z + if |segments| == 1 && tail.AtZero? then 1 else 2
  {
    ChainLink(msg, off, segments, tail);
    FollowWire(msg, off, segments[0], ptr);
    hide Wire, At, ValidLabels, Prepend, WellKnown;
  }

  /** A chain is followed to its end if the pointers suffice, and else refused. */
  lemma {:induction false} FollowChain(msg: Octets, off: nat, segments: seq<seq<Octets>>, tail: Tail, ptr: nat)
    requires ptr <= MAX_POINTERS && Chained(msg, off, segments, tail)
    ensures tail.AtFixed? ==> WellKnown(tail.to).Some?
    ensures Follow(msg, off, ptr) ==
            if ptr + Pointers(segments, tail) <= 10 then Done(Flat(segments), EndingOf(tail)) else Bad
    decreases |segments|
  {
    hide Wire, At, ValidLabels, Follow, Stop, Chained, PointerAt, Prepend, Flat, WellKnown, EndingOf;
    ChainLink(msg, off, segments, tail);
    FollowLink(msg, off, segments, tail, ptr);
    if |segments| == 1 {
      PrependDone(segments[0], [], EndingOf(tail));
    } else if ptr < MAX_POINTERS {
      var to, rest := PointerAt(msg, off + |Wire(segments[0])|), segments[1..];
      FollowChain(msg, to, rest, tail, ptr + 1);
      PrependDone(segments[0], Flat(rest), EndingOf(tail));
      FlatMore(segments);
    } else {
      PrependDone(segments[0], [], EndingOf(tail));
    }
  }

  lemma PrependDone(a: seq<Octets>, b: seq<Octets>, e: Ending)
    ensures Prepend(a, Done(b, e)) == Done(a + b, e) && Prepend(a, Bad) == Bad && a + [] == a
  {
  }

  lemma FlatMore(segments: seq<seq<Octets>>)
    requires segments != []
    ensures Flat(segments) == segments[0] + Flat(segments[1..])
  {
  }

  lemma {:induction false} FlatValid(msg: Octets, off: nat, segments: seq<seq<Octets>>, tail: Tail)
    requires Chained(msg, off, segments, tail)
    ensures ValidLabels(Flat(segments))
    decreases |segments|
  {
    ChainLink(msg, off, segments, tail);
    hide Chained, ValidLabels;
    if |segments| > 1 {
      FlatValid(msg, PointerAt(msg, off + |Wire(segments[0])|), segments[1..], tail);
      ValidJoin(segments[0], Flat(segments[1..]));
    }
  }

  lemma ValidJoin(a: seq<Octets>, b: seq<Octets>)
    requires ValidLabels(a) && ValidLabels(b)
    ensures ValidLabels(a + b)
  {
  }

  /** Compressed names: labels laid out in segments linked by pointers, anywhere in the message, and
      ended by a zero byte or by a pointer to a fixed offset. The name is refused exactly when it needs
      more than ten pointers, or ends at a zero byte and has 255 or more unescaped octets, however many
      escapes it needs; otherwise the reader stops just past the first pointer, or the zero byte if
      there is none, and its text stands for exactly the labels, joined, and those of the offset. A name
      that is only too long is refused with its text. */
  lemma SegmentsRoundTrip(msg: Octets, off: nat, segments: seq<seq<Octets>>, tail: Tail)
    requires Chained(msg, off, segments, tail)
    ensures ValidLabels(segments[0]) && (tail.AtFixed? ==> WellKnown(tail.to).Some?)
    ensures var r, labels := Unpack(msg, off), Flat(segments);
            && (r.err <==> Pointers(segments, tail) > 10 || (tail.AtZero? && NameOctets(labels) >= 255))
            && (!r.err ==>
                  && r.end == off + |Wire(segments[0])| + (if Pointers(segments, tail) == 0 then 1 else 2)
                  && Names(r.name) == Some(labels + if tail.AtZero? then [] else Domain(tail.to)))
            && (r.err ==>
                  && r.end == |msg|
                  && if Pointers(segments, tail) > 10 then r.name == [] else Names(r.name) == Some(labels))
  {
    hide Follow, Stop, Wire, Present, NameOctets, At, Read, Names, WellKnown, Domain;
    ChainLink(msg, off, segments, tail);
    FollowChain(msg, off, segments, tail, 0);
    FollowLink(msg, off, segments, tail, 0);
    FlatValid(msg, off, segments, tail);
    if tail.AtZero? {
      ZeroName(Flat(segments));
      NoOctets();
      assert Flat(segments) + [] == Flat(segments);
    } else {
      FixedName(Flat(segments), tail.to);
    }
  }

  lemma ZeroName(labels: seq<Octets>)
    requires ValidLabels(labels)
    ensures Names(if labels == [] then [DOT] else Present(labels)) == Some(labels + [])
  {
    hide Present, Read;
    assert labels + [] == labels;
    if labels != [] {
      assert |labels[0]| >= 1;
      NamesOfPresent(labels);
    }
  }

  lemma FixedName(labels: seq<Octets>, to: nat)
    requires ValidLabels(labels) && WellKnown(to).Some?
    ensures Names(Present(labels) + WellKnown(to).value) == Some(labels + Domain(to))
  {
    hide Present, Names, WellKnown;
    PresentDomain(to);
    PresentAppend(labels, Domain(to));
    NotOneEmpty(labels, Domain(to));
    NamesOfPresent(labels + Domain(to));
  }

  lemma NotOneEmpty(a: seq<Octets>, b: seq<Octets>)
    requires b != [] && b != [[]]
    ensures a + b != [] && a + b != [[]]
  {
    assert (a + b)[|a|..] == b;
  }

  /** A pointer to offset 0x27 gives a name that reads back with an empty label in it, which no name
      on the wire has. */
  lemma QueryPointerAddsEmptyLabel(msg: Octets, off: nat, segments: seq<seq<Octets>>)
    requires Chained(msg, off, segments, AtFixed(0x27)) && |segments| <= 10
    ensures var r := Unpack(msg, off);
            !r.err && Names(r.name) == Some(Flat(segments) + [[], QRY]) && !ValidLabels(Flat(segments) + [[], QRY])
  {
    SegmentsRoundTrip(msg, off, segments, AtFixed(0x27));
    hide Chained, Unpack, Names, Flat;
    var labels := Flat(segments) + [[], QRY];
    assert labels[|Flat(segments)|] == [];
  }

  /** The plain case: labels laid out anywhere and ended by a zero byte. The text is theirs even when it
      is refused for its length. */
  lemma NameRoundTrip(pre: Octets, labels: seq<Octets>, post: Octets)
    requires ValidLabels(labels)
    ensures var r := Unpack(pre + Wire(labels) + [0] + post, |pre|);
            && (r.err <==> |Wire(labels)| >= 255)
            && r.end == (if r.err then |pre| + |Wire(labels)| + 1 + |post| else |pre| + |Wire(labels)| + 1)
            && Names(r.name) == Some(labels)
  {
    hide Wire, Unpack, Names, NameOctets, ValidLabels;
    var msg := pre + Wire(labels) + [0] + post;
    WireLength(labels);
    assert At(msg, |pre|, Wire(labels)) && msg[|pre| + |Wire(labels)|] == 0;
    SegmentsRoundTrip(msg, |pre|, [labels], AtZero);
    assert Flat([labels]) == labels + Flat([labels][1..]) == labels && labels + [] == labels;
  }

  /** Labels ended by a pointer to one of the fixed offsets: always accepted, whatever their length,
      and the text stands for the labels and then the offset's own. */
  lemma DomainRoundTrip(pre: Octets, labels: seq<Octets>, to: Byte, post: Octets)
    requires ValidLabels(labels) && WellKnown(to).Some?
    ensures var r := Unpack(pre + Wire(labels) + [0xC0, to] + post, |pre|);
            && !r.err && r.end == |pre| + |Wire(labels)| + 2
            && Names(r.name) == Some(labels + Domain(to))
  {
    hide Wire, Unpack, Names, NameOctets, ValidLabels, WellKnown, Domain;
    var msg := pre + Wire(labels) + [0xC0, to] + post;
    var z := |pre| + |Wire(labels)|;
    assert At(msg, |pre|, Wire(labels)) && msg[z] == 0xC0 && msg[z + 1] == to && PointerAt(msg, z) == to;
    SegmentsRoundTrip(msg, |pre|, [labels], AtFixed(to));
    assert Flat([labels]) == labels + Flat([labels][1..]) == labels;
  }

  lemma FollowDomain(msg: Octets, at: nat, to: Byte)
    requires to == 0x0c || to == 0x11 || to == 0x1c
    requires at + 1 < |msg| && msg[at] == 0xC0 && msg[at + 1] == to
    ensures Follow(msg, at, 0) == Done([], Suffix(WellKnown(to).value)) && Stop(msg, at) == at + 2
  {
    assert PointerAt(msg, at) == to;
  }

  lemma EndsAtDomain(msg: Octets, off: nat, labels: seq<Octets>, to: Byte)
    requires ValidLabels(labels) && (to == 0x0c || to == 0x11 || to == 0x1c)
    requires At(msg, off, Wire(labels)) && off + |Wire(labels)| + 1 < |msg|
    requires msg[off + |Wire(labels)|] == 0xC0 && msg[off + |Wire(labels)| + 1] == to
    ensures Unpack(msg, off) ==
            Unpacked(Present(labels) + WellKnown(to).value, off + |Wire(labels)| + 2, false)
  {
    FollowWire(msg, off, labels, 0);
    FollowDomain(msg, off + |Wire(labels)|, to);
    assert labels + [] == labels;
  }

  /** Different label lists are never written as the same name. */
  lemma PresentationInjective(a: seq<Octets>, b: seq<Octets>)
    requires ValidLabels(a) && ValidLabels(b) && Present(a) == Present(b)
    ensures a == b
  {
    ReadPresent(a, []);
    ReadPresent(b, []);
    assert Present(a) + [] == Present(a) && Present(b) + [] == Present(b) && a + [] == a && b + [] == b;
  }

  /** Compression: labels followed by a pointer to an offset that is not well known read as those
      labels and then whatever name stands at the offset, if one more pointer may be followed. */
  lemma PointerJoins(msg: Octets, off: nat, labels: seq<Octets>, ptr: nat)
    requires ptr < MAX_POINTERS && ValidLabels(labels)
    requires At(msg, off, Wire(labels)) && off + |Wire(labels)| + 2 <= |msg|
    requires msg[off + |Wire(labels)|] >= 0xC0 && WellKnown(PointerAt(msg, off + |Wire(labels)|)).None?
    ensures Follow(msg, off, ptr) ==
            Prepend(labels, Follow(msg, PointerAt(msg, off + |Wire(labels)|), ptr + 1))
    ensures Stop(msg, off) == off + |Wire(labels)| + 2
  {
    FollowWire(msg, off, labels, ptr);
  }

  // ----- Bounds, for every message

  /** An accepted name ends inside the message and after its start. Whatever the outcome, the reader
      builds no more than four bytes for every octet that eleven passes over the message can meet,
      and the name it returns adds at most eleven. */
  lemma UnpackBounds(msg: Octets, off: nat)
    ensures var r := Unpack(msg, off);
            && (!r.err ==> off < r.end <= |msg|)
            && |Present(Taken(msg, off, 0))| <= 44 * |msg|
            && |r.name| <= |Present(Taken(msg, off, 0))| + 11
  {
    hide Follow, Stop, Present, NameOctets, Passes, Taken;
    TakenOctets(msg, off, 0);
    PassesNext(0, |msg|);
    PresentLength(Taken(msg, off, 0));
    if Follow(msg, off, 0).Done? {
      StopBounds(msg, off, 0);
      FollowTaken(msg, off, 0);
      EndingLength(msg, off, 0);
    }
  }

  lemma {:induction false} StopBounds(msg: Octets, off: nat, ptr: nat)
    requires ptr <= MAX_POINTERS && Follow(msg, off, ptr).Done?
    ensures off < Stop(msg, off) <= |msg|
    decreases |msg| - off
  {
    if 0 < msg[off] < 0x40 {
      StopBounds(msg, off + 1 + msg[off], ptr);
    }
  }

  /** Each pointer is worth one more pass over the message at most, loops and refusals included. */
  lemma {:induction false} TakenOctets(msg: Octets, off: nat, ptr: nat)
    requires ptr <= MAX_POINTERS
    ensures NameOctets(Taken(msg, off, ptr)) <=
            Passes(10 - ptr, |msg|) + if off < |msg| then |msg| - off else 0
    decreases MAX_POINTERS - ptr, |msg| - off
  {
    hide Passes, NameOctets;
    NoOctets();
    if off < |msg| && msg[off] >= 0xC0 {
      if ptr < MAX_POINTERS && off + 1 < |msg| && WellKnown(PointerAt(msg, off)).None? {
        TakenOctets(msg, PointerAt(msg, off), ptr + 1);
        PassesNext(MAX_POINTERS - ptr - 1, |msg|);
      }
    } else if off < |msg| && 0 < msg[off] < 0x40 && off + 1 + msg[off] <= |msg| {
      var next := off + 1 + msg[off];
      TakenOctets(msg, next, ptr);
      OneLabel(msg[off + 1..next], Taken(msg, next, ptr));
    }
  }

  lemma NoOctets()
    ensures NameOctets([]) == 0
  {
  }

  /** An accepted name is made of the labels taken. */
  lemma {:induction false} FollowTaken(msg: Octets, off: nat, ptr: nat)
    requires ptr <= MAX_POINTERS && Follow(msg, off, ptr).Done?
    ensures Follow(msg, off, ptr).labels == Taken(msg, off, ptr)
    decreases MAX_POINTERS - ptr, |msg| - off
  {
    if msg[off] >= 0xC0 {
      if WellKnown(PointerAt(msg, off)).None? {
        FollowTaken(msg, PointerAt(msg, off), ptr + 1);
      }
    } else if msg[off] > 0 {
      FollowTaken(msg, off + 1 + msg[off], ptr);
    }
  }

  lemma OneLabel(part: Octets, rest: seq<Octets>)
    ensures NameOctets([part] + rest) == |part| + 1 + NameOctets(rest)
  {
    assert ([part] + rest)[1..] == rest;
  }

  /** The text a pointer adds is short. */
  lemma {:induction false} EndingLength(msg: Octets, off: nat, ptr: nat)
    requires ptr <= MAX_POINTERS && Follow(msg, off, ptr).Done?
    ensures Follow(msg, off, ptr).ending.Suffix? ==> |Follow(msg, off, ptr).ending.text| <= 11
    decreases MAX_POINTERS - ptr, |msg| - off
  {
    if msg[off] >= 0xC0 {
      WellKnownLength(PointerAt(msg, off));
      if WellKnown(PointerAt(msg, off)).None? {
        EndingLength(msg, PointerAt(msg, off), ptr + 1);
      }
    } else if msg[off] > 0 {
      EndingLength(msg, off + 1 + msg[off], ptr);
    }
  }

  /** It is the text of a fixed offset. */
  lemma {:induction false} EndingIsFixed(msg: Octets, off: nat, ptr: nat) returns (tail: Tail)
    requires ptr <= MAX_POINTERS && Follow(msg, off, ptr).Done?
    ensures tail.AtFixed? ==> WellKnown(tail.to).Some?
    ensures Follow(msg, off, ptr).ending == EndingOf(tail)
    decreases MAX_POINTERS - ptr, |msg| - off
  {
    hide WellKnown;
    if msg[off] == 0 {
      tail := AtZero;
    } else if msg[off] >= 0xC0 {
      var to := PointerAt(msg, off);
      if WellKnown(to).Some? {
        tail := AtFixed(to);
      } else {
        tail := EndingIsFixed(msg, to, ptr + 1);
      }
    } else {
      tail := EndingIsFixed(msg, off + 1 + msg[off], ptr);
    }
  }

  lemma {:induction false} TakenValid(msg: Octets, off: nat, ptr: nat)
    requires ptr <= MAX_POINTERS
    ensures ValidLabels(Taken(msg, off, ptr))
    decreases MAX_POINTERS - ptr, |msg| - off
  {
    hide ValidLabels;
    NoneAreValid();
    if off < |msg| && 0 < msg[off] < 0x40 && off + 1 + msg[off] <= |msg| {
      var next := off + 1 + msg[off];
      TakenValid(msg, next, ptr);
      OneIsValid(msg[off + 1..next]);
      ValidJoin([msg[off + 1..next]], Taken(msg, next, ptr));
    } else if off + 1 < |msg| && msg[off] >= 0xC0 && ptr < MAX_POINTERS && WellKnown(PointerAt(msg, off)).None? {
      TakenValid(msg, PointerAt(msg, off), ptr + 1);
    }
  }

  lemma NoneAreValid()
    ensures ValidLabels([])
  {
  }

  lemma OneIsValid(part: Octets)
    requires 1 <= |part| <= 63
    ensures ValidLabels([part])
  {
  }

  /** For every message: an accepted name reads back as the labels taken, followed by those of a fixed
      offset if it ends there. */
  lemma AcceptedReadsBack(msg: Octets, off: nat) returns (tail: Tail)
    requires !Unpack(msg, off).err
    ensures tail.AtFixed? ==> WellKnown(tail.to).Some?
    ensures ValidLabels(Taken(msg, off, 0))
    ensures Names(Unpack(msg, off).name) == Some(Taken(msg, off, 0) + if tail.AtZero? then [] else Domain(tail.to))
  {
    hide Follow, Stop, Taken, Present, Names, NameOctets, WellKnown, Domain, ValidLabels;
    FollowTaken(msg, off, 0);
    TakenValid(msg, off, 0);
    tail := EndingIsFixed(msg, off, 0);
    if tail.AtZero? {
      ZeroName(Taken(msg, off, 0));
    } else {
      FixedName(Taken(msg, off, 0), tail.to);
    }
  }

  lemma {:induction false} PresentLength(labels: seq<Octets>)
    ensures |Present(labels)| <= 4 * NameOctets(labels)
  {
    if labels != [] {
      EscapeAllLength(labels[0]);
      PresentLength(labels[1..]);
    }
  }

  lemma {:induction false} EscapeAllLength(part: Octets)
    ensures |EscapeAll(part)| <= 4 * |part|
  {
    if part != [] {
      EscapeAllLength(part[1..]);
    }
  }

  /** The end offset depends on nothing but the bytes up to it. */
  lemma {:induction false} EndIsLocal(a: Octets, b: Octets, off: nat)
    requires !Unpack(a, off).err && !Unpack(b, off).err
    requires Unpack(a, off).end <= |b|
    requires forall i :: off <= i < Unpack(a, off).end && i < |a| && i < |b| ==> a[i] == b[i]
    ensures Unpack(a, off).end == Unpack(b, off).end
  {
    StopBounds(a, off, 0);
    StopIsLocal(a, b, off);
  }

  lemma {:induction false} StopIsLocal(a: Octets, b: Octets, off: nat)
    requires Follow(a, off, 0).Done?
    requires off < Stop(a, off) <= |a| && Stop(a, off) <= |b|
    requires forall i :: off <= i < Stop(a, off) ==> a[i] == b[i]
    ensures Stop(a, off) == Stop(b, off)
    decreases |a| - off
  {
    if 0 < a[off] < 0x40 {
      StopBounds(a, off + 1 + a[off], 0);
      StopIsLocal(a, b, off + 1 + a[off]);
    }
  }

  // ----- Pointer loops

  /** Where the first pointer met from `off` leads, if the reader would follow it. */
  function NextHop(msg: Octets, off: nat): Option<nat>
    decreases |msg| - off
  {
    if off >= |msg| || msg[off] == 0 then None
    else if msg[off] < 0x40 then NextHop(msg, off + 1 + msg[off])
    else if msg[off] < 0xC0 || off + 1 >= |msg| || WellKnown(PointerAt(msg, off)).Some? then None
    else Some(PointerAt(msg, off))
  }

  function Hops(msg: Octets, off: nat, n: nat): Option<nat>
    decreases n
  {
    if n == 0 then Some(off)
    else match NextHop(msg, off) case None => None case Some(to) => Hops(msg, to, n - 1)
  }

  /** A name that needs more pointers than are left is refused. */
  lemma {:induction false} TooManyHops(msg: Octets, off: nat, ptr: nat, n: nat)
    requires ptr <= 10 < ptr + n && Hops(msg, off, n).Some?
    ensures Follow(msg, off, ptr).Bad?
    decreases MAX_POINTERS - ptr, |msg| - off
  {
    if msg[off] >= 0xC0 {
      if ptr < MAX_POINTERS {
        TooManyHops(msg, PointerAt(msg, off), ptr + 1, n - 1);
      }
    } else if off + 1 + msg[off] <= |msg| {
      TooManyHops(msg, off + 1 + msg[off], ptr, n);
    }
  }

  lemma {:induction false} HopsAround(msg: Octets, off: nat, n: nat, times: nat)
    requires Hops(msg, off, n) == Some(off)
    ensures Hops(msg, off, n * times) == Some(off)
    decreases times
  {
    if times > 0 {
      HopsAround(msg, off, n, times - 1);
      HopsSplit(msg, off, n, n * (times - 1));
      assert n * times == n + n * (times - 1);
    }
  }

  lemma {:induction false} HopsSplit(msg: Octets, off: nat, m: nat, n: nat)
    requires Hops(msg, off, m).Some?
    ensures Hops(msg, off, m + n) == Hops(msg, Hops(msg, off, m).value, n)
    decreases m
  {
    if m > 0 {
      HopsSplit(msg, NextHop(msg, off).value, m - 1, n);
    }
  }

  /** A name whose pointers lead back to it, after however many hops, is always refused. */
  lemma LoopsAreRefused(msg: Octets, off: nat, n: nat)
    requires n > 0 && Hops(msg, off, n) == Some(off)
    ensures Unpack(msg, off) == Unpacked([], |msg|, true)
  {
    HopsAround(msg, off, n, 11);
    TooManyHops(msg, off, 0, n * 11);
  }
}
