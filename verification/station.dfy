/**
 Station counters from netlink attributes. The kernel sends some counters both wide and narrow, in
 any order; the parser assigns fields as it goes and takes a narrow one only while the field is 0.
 */
module Station {
  import opened Bytes

  datatype Kind =
    | ConnectedTime | InactiveTime | RxBytes64 | TxBytes64 | Signal | RxPackets | TxPackets
    | TxRetries | TxFailed | BeaconLoss | RxBitrate | TxBitrate | RxBytes | TxBytes | Unknown(n: nat)

  datatype RateKind = Bitrate32 | Bitrate16 | OtherRate(n: nat)

  datatype RateAttr = RateAttr(kind: RateKind, value: nat)

  /** An attribute with its unsigned value; the two bit rates carry attributes of their own, `None`
      if those cannot be taken apart. */
  datatype Attr = Attr(kind: Kind, value: nat, rates: Option<seq<RateAttr>>)

  function ToInt64(v: nat): int {
    var w := v % 0x1_0000_0000_0000_0000;
    if w >= 0x8000_0000_0000_0000 then w - 0x1_0000_0000_0000_0000 else w
  }

  function ToInt8(v: nat): int {
    if v % 256 >= 128 then v % 256 - 256 else v % 256
  }

  // ----- Rates

  function RateStep(bitrate: nat, a: RateAttr): nat {
    if a.kind == Bitrate32 then a.value
    else if a.kind == Bitrate16 && bitrate == 0 then a.value
    else bitrate
  }

  function RateFold(bitrate: nat, attrs: seq<RateAttr>): nat
    decreases |attrs|
  {
    if attrs == [] then bitrate else RateFold(RateStep(bitrate, attrs[0]), attrs[1..])
  }

  const RATE_UNIT := 100 * 1000

  /** Bits per second. */
  method ParseRateInfo(attrs: seq<RateAttr>) returns (bitrate: nat)
    ensures bitrate == RateFold(0, attrs) * 100_000
  {
    bitrate := 0;
    assert attrs[0..] == attrs;
    for i := 0 to |attrs|
      invariant RateFold(bitrate, attrs[i..]) == RateFold(0, attrs)
    {
      var a := attrs[i];
      assert attrs[i..][1..] == attrs[i + 1..];
      if a.kind == Bitrate32 {
        bitrate := a.value;
      }
      if bitrate == 0 && a.kind == Bitrate16 {
        bitrate := a.value;
      }
    }
    bitrate := bitrate * 100 * 1000;
  }

  // ----- All counters

  datatype Info = Info(connected: int, inactive: int, rxBytes: int, txBytes: int, signal: int,
                       rxPackets: int, txPackets: int, retries: int, failed: int, beaconLoss: int,
                       rxBitrate: int, txBitrate: int)

  const EMPTY := Info(0, 0, 0, 0, 0, 0, 0, 0, 0, 0, 0, 0)

  function RateOf(a: Attr): nat {
    if a.rates.Some? then RateFold(0, a.rates.value) * RATE_UNIT else 0
  }

  predicate Broken(a: Attr) {
    (a.kind == RxBitrate || a.kind == TxBitrate) && a.rates.None?
  }

  function Step(info: Info, a: Attr): Info {
    match a.kind
    case ConnectedTime => info.(connected := a.value * 1_000_000_000)
    case InactiveTime => info.(inactive := a.value * 1_000_000)
    case RxBytes64 => info.(rxBytes := ToInt64(a.value))
    case TxBytes64 => info.(txBytes := ToInt64(a.value))
    case Signal => info.(signal := ToInt8(a.value))
    case RxPackets => info.(rxPackets := a.value)
    case TxPackets => info.(txPackets := a.value)
    case TxRetries => info.(retries := a.value)
    case TxFailed => info.(failed := a.value)
    case BeaconLoss => info.(beaconLoss := a.value)
    case RxBitrate => info.(rxBitrate := RateOf(a))
    case TxBitrate => info.(txBitrate := RateOf(a))
    case RxBytes => if info.rxBytes == 0 then info.(rxBytes := a.value) else info
    case TxBytes => if info.txBytes == 0 then info.(txBytes := a.value) else info
    case Unknown(_) => info
  }

  /** The fields after the attributes, or `None` at a bit rate that cannot be taken apart. */
  function Parse(info: Info, attrs: seq<Attr>): Option<Info>
    decreases |attrs|
  {
    if attrs == [] then Some(info)
    else if Broken(attrs[0]) then None
    else Parse(Step(info, attrs[0]), attrs[1..])
  }

  class StationInfo {
    var Connected: int
    var Inactive: int
    var ReceivedBytes: int
    var TransmittedBytes: int
    var Signal: int
    var ReceivedPackets: int
    var TransmittedPackets: int
    var TransmitRetries: int
    var TransmitFailed: int
    var BeaconLoss: int
    var ReceiveBitrate: int
    var TransmitBitrate: int

    constructor ()
      ensures Value() == EMPTY
    {
      Connected, Inactive, ReceivedBytes, TransmittedBytes, Signal, ReceivedPackets := 0, 0, 0, 0, 0, 0;
      TransmittedPackets, TransmitRetries, TransmitFailed, BeaconLoss := 0, 0, 0, 0;
      ReceiveBitrate, TransmitBitrate := 0, 0;
    }

    function Value(): Info
      reads this
    {
      Info(Connected, Inactive, ReceivedBytes, TransmittedBytes, Signal, ReceivedPackets,
           TransmittedPackets, TransmitRetries, TransmitFailed, BeaconLoss, ReceiveBitrate, TransmitBitrate)
    }

    method ParseAttributes(attrs: seq<Attr>) returns (ok: bool)
      modifies this
      ensures if ok then Parse(old(Value()), attrs) == Some(Value()) else Parse(old(Value()), attrs).None?
    {
      assert attrs[0..] == attrs;
      for i := 0 to |attrs|
        invariant Parse(Value(), attrs[i..]) == Parse(old(Value()), attrs)
      {
        assert attrs[i..][0] == attrs[i] && attrs[i..][1..] == attrs[i + 1..];
        var good := ParseAttribute(attrs[i]);
        if !good {
          return false;
        }
      }
      return true;
    }

    /** The body of the loop. */
    method ParseAttribute(a: Attr) returns (ok: bool)
      modifies this
      ensures ok == !Broken(a)
      ensures ok ==> Value() == Step(old(Value()), a)
    {
      match a.kind {
        case ConnectedTime => Connected := a.value * 1_000_000_000;
        case InactiveTime => Inactive := a.value * 1_000_000;
        case RxBytes64 => ReceivedBytes := ToInt64(a.value);
        case TxBytes64 => TransmittedBytes := ToInt64(a.value);
        case Signal => Signal := ToInt8(a.value);
        case RxPackets => ReceivedPackets := a.value;
        case TxPackets => TransmittedPackets := a.value;
        case TxRetries => TransmitRetries := a.value;
        case TxFailed => TransmitFailed := a.value;
        case BeaconLoss => BeaconLoss := a.value;
        case RxBitrate =>
          if a.rates.None? {
            return false;
          }
          ReceiveBitrate := ParseRateInfo(a.rates.value);
        case TxBitrate =>
          if a.rates.None? {
            return false;
          }
          TransmitBitrate := ParseRateInfo(a.rates.value);
        case _ =>
      }
      if ReceivedBytes == 0 && a.kind == RxBytes {
        ReceivedBytes := a.value;
      }
      if TransmittedBytes == 0 && a.kind == TxBytes {
        TransmittedBytes := a.value;
      }
      return true;
    }
  }

  // ----- What the attributes say, in no particular order

  ghost predicate OnePerKind(attrs: seq<Attr>) {
    forall i, j :: 0 <= i < j < |attrs| ==> attrs[i].kind != attrs[j].kind
  }

  /** The attribute of a kind. */
  function Lookup(attrs: seq<Attr>, kind: Kind): (r: Option<Attr>)
    ensures r.Some? ==> r.value in attrs && r.value.kind == kind
    ensures r.None? ==> forall a :: a in attrs ==> a.kind != kind
  {
    if attrs == [] then None
    else if attrs[|attrs| - 1].kind == kind then Some(attrs[|attrs| - 1])
    else Lookup(attrs[..|attrs| - 1], kind)
  }

  function Plain(attrs: seq<Attr>, kind: Kind): nat {
    match Lookup(attrs, kind) case Some(a) => a.value case None => 0
  }

  /** The wide counter if there is one, else the narrow one, else zero. */
  function Best(attrs: seq<Attr>, wide: Kind, narrow: Kind): int {
    match Lookup(attrs, wide) case Some(a) => ToInt64(a.value) case None => Plain(attrs, narrow)
  }

  function Rate(attrs: seq<Attr>, kind: Kind): nat {
    match Lookup(attrs, kind) case Some(a) => RateOf(a) case None => 0
  }

  function Said(attrs: seq<Attr>): Info {
    Info(Plain(attrs, ConnectedTime) * 1_000_000_000, Plain(attrs, InactiveTime) * 1_000_000,
         Best(attrs, RxBytes64, RxBytes), Best(attrs, TxBytes64, TxBytes), ToInt8(Plain(attrs, Signal)),
         Plain(attrs, RxPackets), Plain(attrs, TxPackets), Plain(attrs, TxRetries), Plain(attrs, TxFailed),
         Plain(attrs, BeaconLoss), Rate(attrs, RxBitrate), Rate(attrs, TxBitrate))
  }

  /** A wide counter that is zero has a narrow one that is zero, as when the narrow one holds its
      low bits. */
  ghost predicate Agree(attrs: seq<Attr>, wide: Kind, narrow: Kind) {
    forall a, b :: a in attrs && b in attrs && a.kind == wide && ToInt64(a.value) == 0 && b.kind == narrow ==>
                     b.value == 0
  }

  ghost predicate Orderly(attrs: seq<Attr>) {
    OnePerKind(attrs) && Agree(attrs, RxBytes64, RxBytes) && Agree(attrs, TxBytes64, TxBytes)
  }

  lemma LookupNext(done: seq<Attr>, a: Attr, kind: Kind)
    ensures Lookup(done + [a], kind) == if a.kind == kind then Some(a) else Lookup(done, kind)
  {
    assert (done + [a])[..|done|] == done;
  }

  lemma PlainNext(done: seq<Attr>, a: Attr, kind: Kind)
    ensures Plain(done + [a], kind) == if a.kind == kind then a.value else Plain(done, kind)
    ensures Rate(done + [a], kind) == if a.kind == kind then RateOf(a) else Rate(done, kind)
  {
    LookupNext(done, a, kind);
  }

  /** A wide and narrow pair, one attribute further. */
  lemma BestNext(done: seq<Attr>, a: Attr, wide: Kind, narrow: Kind)
    requires OnePerKind(done + [a]) && Agree(done + [a], wide, narrow) && wide != narrow
    ensures Best(done + [a], wide, narrow) ==
            if a.kind == wide then ToInt64(a.value)
            else if a.kind == narrow && Best(done, wide, narrow) == 0 then a.value
            else Best(done, wide, narrow)
  {
    LookupNext(done, a, wide);
    LookupNext(done, a, narrow);
    assert a in done + [a] && (done + [a])[|done|] == a;
    assert forall b :: b in done ==> b in done + [a];
    if a.kind == narrow {
      NewKind(done, a);
    }
  }

  lemma NewKind(done: seq<Attr>, a: Attr)
    requires OnePerKind(done + [a])
    ensures Lookup(done, a.kind) == None
  {
    var after := done + [a];
    assert forall i :: 0 <= i < |done| ==> done[i] == after[i] && after[i].kind != after[|done|].kind;
  }

  lemma SaidNext(done: seq<Attr>, a: Attr)
    requires Orderly(done + [a])
    ensures Step(Said(done), a) == Said(done + [a])
  {
    hide Plain, Rate, Best, RateOf, ToInt64, ToInt8;
    BestNext(done, a, RxBytes64, RxBytes);
    BestNext(done, a, TxBytes64, TxBytes);
    forall k ensures Plain(done + [a], k) == if a.kind == k then a.value else Plain(done, k) {
      PlainNext(done, a, k);
    }
    forall k ensures Rate(done + [a], k) == if a.kind == k then RateOf(a) else Rate(done, k) {
      PlainNext(done, a, k);
    }
  }

  lemma {:induction false} ParseFrom(done: seq<Attr>, rest: seq<Attr>)
    requires Orderly(done + rest) && forall a :: a in rest ==> !Broken(a)
    ensures Parse(Said(done), rest) == Some(Said(done + rest))
    decreases |rest|
  {
    if rest == [] {
      assert done + rest == done;
    } else {
      var a, more := rest[0], rest[1..];
      assert done + rest == (done + [a]) + more;
      PrefixOrderly(done + [a], more);
      SaidNext(done, a);
      ParseFrom(done + [a], more);
    }
  }

  lemma PrefixOrderly(a: seq<Attr>, b: seq<Attr>)
    requires Orderly(a + b)
    ensures Orderly(a)
  {
    assert forall i :: 0 <= i < |a| ==> (a + b)[i] == a[i];
    assert forall x :: x in a ==> x in a + b;
  }

  lemma {:induction false} BrokenFails(info: Info, attrs: seq<Attr>)
    ensures Parse(info, attrs).None? <==> exists a :: a in attrs && Broken(a)
    decreases |attrs|
  {
    if attrs != [] {
      assert attrs[0] in attrs;
      BrokenFails(Step(info, attrs[0]), attrs[1..]);
      assert forall a :: a in attrs <==> a == attrs[0] || a in attrs[1..];
    }
  }

  /** Each field is what the attributes say, the pairs being wide if present, else narrow, else 0. */
  lemma ParseIsSaid(attrs: seq<Attr>)
    requires Orderly(attrs) && forall a :: a in attrs ==> !Broken(a)
    ensures Parse(EMPTY, attrs) == Some(Said(attrs))
  {
    assert [] + attrs == attrs;
    assert Said([]) == EMPTY;
    ParseFrom([], attrs);
  }

  lemma LookupSame(a: seq<Attr>, b: seq<Attr>, kind: Kind)
    requires OnePerKind(a) && forall x :: x in a <==> x in b
    ensures Lookup(a, kind) == Lookup(b, kind)
  {
    if Lookup(a, kind).Some? && Lookup(b, kind).Some? {
      var x, y := Lookup(a, kind).value, Lookup(b, kind).value;
      var i :| 0 <= i < |a| && a[i] == x;
      var j :| 0 <= j < |a| && a[j] == y;
    }
  }

  /** The order of the attributes does not matter: lists with the same attributes, at most one of a
      kind, parse alike. */
  lemma OrderDoesNotMatter(a: seq<Attr>, b: seq<Attr>)
    requires Orderly(a) && Orderly(b) && forall x :: x in a <==> x in b
    ensures Parse(EMPTY, a) == Parse(EMPTY, b)
  {
    hide Parse, Said;
    BrokenFails(EMPTY, a);
    BrokenFails(EMPTY, b);
    if forall x :: x in a ==> !Broken(x) {
      ParseIsSaid(a);
      ParseIsSaid(b);
      SaidSame(a, b);
    }
  }

  lemma SaidSame(a: seq<Attr>, b: seq<Attr>)
    requires OnePerKind(a) && forall x :: x in a <==> x in b
    ensures Said(a) == Said(b)
  {
    hide Lookup, OnePerKind;
    forall k ensures Lookup(a, k) == Lookup(b, k) {
      LookupSame(a, b, k);
    }
  }

  /** The condition on the pairs cannot be dropped: a zero wide counter with a narrow one that is not
      zero gives two results for the two orders. */
  lemma OrderMattersOtherwise(n: nat)
    requires n != 0
    ensures var w, s := Attr(RxBytes64, 0, None), Attr(RxBytes, n, None);
            Parse(EMPTY, [w, s]) == Some(EMPTY.(rxBytes := n)) && Parse(EMPTY, [s, w]) == Some(EMPTY)
  {
    var w, s := Attr(RxBytes64, 0, None), Attr(RxBytes, n, None);
    assert [w, s][1..] == [s] && [s, w][1..] == [w];
    assert Parse(Step(EMPTY, w), [s]) == Parse(Step(Step(EMPTY, w), s), []);
    assert Parse(Step(EMPTY, s), [w]) == Parse(Step(Step(EMPTY, s), w), []);
  }

  predicate IsPair(wide: Kind, narrow: Kind) {
    (wide == RxBytes64 && narrow == RxBytes) || (wide == TxBytes64 && narrow == TxBytes)
  }

  function Counter(info: Info, wide: Kind): int {
    if wide == RxBytes64 then info.rxBytes else info.txBytes
  }

  /** The attributes of other kinds. */
  function Without(attrs: seq<Attr>, wide: Kind, narrow: Kind): (r: seq<Attr>)
    ensures forall a :: a in r <==> a in attrs && a.kind != wide && a.kind != narrow
  {
    if attrs == [] then []
    else
      var n := |attrs| - 1;
      assert forall a :: a in attrs <==> a in attrs[..n] || a == attrs[n];
      Without(attrs[..n], wide, narrow) +
      if attrs[n].kind == wide || attrs[n].kind == narrow then [] else [attrs[n]]
  }

  lemma {:induction false} WithoutOnePerKind(attrs: seq<Attr>, wide: Kind, narrow: Kind)
    requires OnePerKind(attrs)
    ensures OnePerKind(Without(attrs, wide, narrow))
    decreases |attrs|
  {
    if attrs != [] {
      var init := attrs[..|attrs| - 1];
      WithoutOnePerKind(init, wide, narrow);
      assert forall a :: a in init ==> a.kind != attrs[|attrs| - 1].kind;
    }
  }

  lemma {:induction false} OthersKeepCounter(info: Info, attrs: seq<Attr>, wide: Kind, narrow: Kind)
    requires IsPair(wide, narrow) && Parse(info, attrs).Some?
    requires forall a :: a in attrs ==> a.kind != wide && a.kind != narrow
    ensures Counter(Parse(info, attrs).value, wide) == Counter(info, wide)
    decreases |attrs|
  {
    if attrs != [] {
      assert attrs[0] in attrs && forall a :: a in attrs[1..] ==> a in attrs;
      OthersKeepCounter(Step(info, attrs[0]), attrs[1..], wide, narrow);
    }
  }

  ghost predicate SameAttributes(a: seq<Attr>, b: seq<Attr>) {
    OnePerKind(a) && OnePerKind(b) && forall x :: x in a <==> x in b
  }

  lemma ConsOnePerKind(x: Attr, s: seq<Attr>)
    requires OnePerKind(s) && forall z :: z in s ==> z.kind != x.kind
    ensures OnePerKind([x] + s)
  {
    var all := [x] + s;
    forall i, j | 0 <= i < j < |all| ensures all[i].kind != all[j].kind {
      assert all[j] == s[j - 1] && s[j - 1] in s;
      if i > 0 {
        assert all[i] == s[i - 1];
      }
    }
  }

  lemma SameKind(a: seq<Attr>, x: Attr, y: Attr)
    requires OnePerKind(a) && x in a && y in a && x.kind == y.kind
    ensures x == y
  {
    var i :| 0 <= i < |a| && a[i] == x;
    var j :| 0 <= j < |a| && a[j] == y;
  }

  lemma SplitOff(a: seq<Attr>, x: Attr, y: Attr, rest: seq<Attr>)
    requires OnePerKind(a) && x in a && y in a && x.kind != y.kind && OnePerKind(rest)
    requires forall z :: z in rest <==> z in a && z.kind != x.kind && z.kind != y.kind
    ensures SameAttributes(a, [x] + ([y] + rest))
  {
    ConsOnePerKind(y, rest);
    ConsOnePerKind(x, [y] + rest);
    hide OnePerKind;
    forall z | z in a ensures z in [x] + ([y] + rest) {
      if z.kind == x.kind {
        SameKind(a, z, x);
      } else if z.kind == y.kind {
        SameKind(a, z, y);
      }
    }
  }

  /** Two attributes first and others of no matter for the counter behind them. */
  lemma TwoFirst(x: Attr, y: Attr, rest: seq<Attr>, wide: Kind, narrow: Kind)
    requires IsPair(wide, narrow) && !Broken(x) && !Broken(y)
    requires forall a :: a in rest ==> !Broken(a) && a.kind != wide && a.kind != narrow
    ensures var r := Parse(EMPTY, [x] + ([y] + rest));
            r.Some? && Counter(r.value, wide) == Counter(Step(Step(EMPTY, x), y), wide)
  {
    hide Step, Broken;
    var both := Step(Step(EMPTY, x), y);
    var tail := [y] + rest;
    var all := [x] + tail;
    assert all[1..] == tail && tail[1..] == rest;
    assert Parse(EMPTY, all) == Parse(Step(EMPTY, x), tail) == Parse(both, rest);
    BrokenFails(both, rest);
    OthersKeepCounter(both, rest, wide, narrow);
  }

  /** The two attributes of a pair that disagree, in front of the others in either order. */
  lemma BothOrders(a: seq<Attr>, w: Attr, s: Attr) returns (b: seq<Attr>, c: seq<Attr>)
    requires OnePerKind(a) && w in a && s in a && IsPair(w.kind, s.kind)
    requires ToInt64(w.value) == 0 && s.value != 0
    requires forall x :: x in a ==> !Broken(x)
    ensures SameAttributes(a, b) && SameAttributes(a, c) && Parse(EMPTY, b) != Parse(EMPTY, c)
  {
    hide Parse, OnePerKind, SameAttributes, Broken, ToInt64;
    var rest := Without(a, w.kind, s.kind);
    WithoutOnePerKind(a, w.kind, s.kind);
    b, c := [w] + ([s] + rest), [s] + ([w] + rest);
    SplitOff(a, w, s, rest);
    SplitOff(a, s, w, rest);
    TwoFirst(w, s, rest, w.kind, s.kind);
    TwoFirst(s, w, rest, w.kind, s.kind);
    TwoCounters(w, s);
  }

  lemma TwoCounters(w: Attr, s: Attr)
    requires IsPair(w.kind, s.kind) && ToInt64(w.value) == 0 && s.value != 0
    ensures Counter(Step(Step(EMPTY, w), s), w.kind) == s.value
    ensures Counter(Step(Step(EMPTY, s), w), w.kind) == 0
  {
    hide ToInt64;
  }

  /** With at most one attribute of a kind, the order does not matter exactly when neither pair has a
      zero wide counter and a narrow one that is not zero. */
  lemma OrderMattersExactly(a: seq<Attr>)
    requires OnePerKind(a) && forall x :: x in a ==> !Broken(x)
    ensures (forall b :: SameAttributes(a, b) ==> Parse(EMPTY, b) == Parse(EMPTY, a)) <==> Orderly(a)
  {
    if Orderly(a) {
      forall b | SameAttributes(a, b) ensures Parse(EMPTY, b) == Parse(EMPTY, a) {
        OrderDoesNotMatter(a, b);
      }
    } else if w, s :| w in a && s in a && IsPair(w.kind, s.kind) && ToInt64(w.value) == 0 && s.value != 0 {
      var b, c := BothOrders(a, w, s);
    }
  }

  // ----- Fields and attributes, value by value

  /** What a field shows of the attribute that decides it: seconds and milliseconds in nanoseconds, the
      signal as a signed byte and the wide counters as signed 64-bit words, rates in bits per second. */
  ghost predicate Shows(info: Info, a: Attr) {
    match a.kind
    case ConnectedTime => info.connected == a.value * 1_000_000_000
    case InactiveTime => info.inactive == a.value * 1_000_000
    case RxBytes64 => SignedWord(a.value, info.rxBytes)
    case TxBytes64 => SignedWord(a.value, info.txBytes)
    case Signal => -128 <= info.signal <= 127 && (a.value - info.signal) % 256 == 0
    case RxPackets => info.rxPackets == a.value
    case TxPackets => info.txPackets == a.value
    case TxRetries => info.retries == a.value
    case TxFailed => info.failed == a.value
    case BeaconLoss => info.beaconLoss == a.value
    case RxBitrate => a.rates.Some? && info.rxBitrate == RateFold(0, a.rates.value) * 100_000
    case TxBitrate => a.rates.Some? && info.txBitrate == RateFold(0, a.rates.value) * 100_000
    case RxBytes => info.rxBytes == a.value
    case TxBytes => info.txBytes == a.value
    case Unknown(_) => true
  }

  /** `n` is in the range of a signed 64-bit word and differs from `v` by a multiple of 2^64. */
  predicate SignedWord(v: nat, n: int) {
    && -0x8000_0000_0000_0000 <= n < 0x8000_0000_0000_0000
    && (v - n) % 0x1_0000_0000_0000_0000 == 0
  }

  lemma Signed(v: nat)
    ensures SignedWord(v, ToInt64(v))
    ensures -128 <= ToInt8(v) <= 127 && (v - ToInt8(v)) % 256 == 0
  {
    SignedWide(v);
    hide ToInt64, SignedWord;
    var q := v / 256;
    assert v == 256 * q + v % 256;
    if v % 256 >= 128 {
      assert v - ToInt8(v) == 256 * (q + 1);
    } else {
      assert v - ToInt8(v) == 256 * q;
    }
  }

  lemma SignedWide(v: nat)
    ensures SignedWord(v, ToInt64(v))
  {
    var q := v / 0x1_0000_0000_0000_0000;
    assert v == 0x1_0000_0000_0000_0000 * q + v % 0x1_0000_0000_0000_0000;
    if v % 0x1_0000_0000_0000_0000 >= 0x8000_0000_0000_0000 {
      assert v - ToInt64(v) == 0x1_0000_0000_0000_0000 * (q + 1);
    } else {
      assert v - ToInt64(v) == 0x1_0000_0000_0000_0000 * q;
    }
  }

  lemma StepShows(info: Info, a: Attr)
    requires !Broken(a) && (a.kind == RxBytes ==> info.rxBytes == 0) && (a.kind == TxBytes ==> info.txBytes == 0)
    ensures Shows(Step(info, a), a)
  {
    Signed(a.value);
    hide ToInt8, ToInt64, SignedWord, RateFold;
  }

  /** An attribute of another kind leaves alone what a field shows, unless it is a narrow counter that
      finds its counter zero, or a wide one behind the narrow one. */
  predicate Disturbs(info: Info, a: Attr, x: Attr) {
    || x.kind == a.kind
    || (IsPair(a.kind, x.kind) && Counter(info, a.kind) == 0)
    || IsPair(x.kind, a.kind)
  }

  lemma StepKeepsShown(info: Info, a: Attr, x: Attr)
    requires Shows(info, a) && !Disturbs(info, a, x)
    ensures Shows(Step(info, x), a)
  {
    hide ToInt8, ToInt64, SignedWord, RateFold;
  }

  /** Whatever was there before, and whatever comes before it, the last attribute of a kind decides its
      field: of a wide counter if it is not zero or no narrow one is behind it. */
  lemma LastShows(info: Info, before: seq<Attr>, a: Attr, behind: seq<Attr>)
    requires Parse(info, before + [a] + behind).Some? && a.kind != RxBytes && a.kind != TxBytes
    requires forall x :: x in behind ==> x.kind != a.kind
    requires a.value % 0x1_0000_0000_0000_0000 == 0 ==> forall x :: x in behind ==> !IsPair(a.kind, x.kind)
    ensures Shows(Parse(info, before + [a] + behind).value, a)
  {
    ParseSplits(info, before, a, behind);
    var at := Step(Parse(info, before).value, a);
    StepShows(Parse(info, before).value, a);
    if IsPair(a.kind, RxBytes) || IsPair(a.kind, TxBytes) {
      WideStays(at, a, behind);
    } else {
      ShownStays(at, a, behind);
    }
  }

  /** The last narrow counter decides its field if that is zero when its turn comes and no wide one is
      behind it. */
  lemma NarrowShown(info: Info, before: seq<Attr>, a: Attr, behind: seq<Attr>)
    requires Parse(info, before + [a] + behind).Some? && Parse(info, before).Some?
    requires a.kind == RxBytes || a.kind == TxBytes
    requires var was := Parse(info, before).value; (if a.kind == RxBytes then was.rxBytes else was.txBytes) == 0
    requires forall x :: x in behind ==> x.kind != a.kind && !IsPair(x.kind, a.kind)
    ensures Shows(Parse(info, before + [a] + behind).value, a)
  {
    ParseSplits(info, before, a, behind);
    StepShows(Parse(info, before).value, a);
    ShownStays(Step(Parse(info, before).value, a), a, behind);
  }

  lemma {:induction false} ParseSplits(info: Info, before: seq<Attr>, a: Attr, behind: seq<Attr>)
    requires Parse(info, before + [a] + behind).Some?
    ensures Parse(info, before).Some? && !Broken(a)
    ensures Parse(info, before + [a] + behind) == Parse(Step(Parse(info, before).value, a), behind)
    decreases |before|
  {
    hide Step, Broken;
    var all := before + [a] + behind;
    if before == [] {
      assert all[0] == a && all[1..] == behind;
    } else {
      assert all[0] == before[0] && all[1..] == before[1..] + [a] + behind;
      ParseSplits(Step(info, before[0]), before[1..], a, behind);
    }
  }

  lemma {:induction false} ShownStays(info: Info, a: Attr, behind: seq<Attr>)
    requires Shows(info, a) && Parse(info, behind).Some? && !a.kind.RxBytes64? && !a.kind.TxBytes64?
    requires forall x :: x in behind ==> x.kind != a.kind && !IsPair(x.kind, a.kind)
    ensures Shows(Parse(info, behind).value, a)
    decreases |behind|
  {
    hide Step, Shows;
    if behind != [] {
      assert behind[0] in behind && forall x :: x in behind[1..] ==> x in behind;
      StepKeepsShown(info, a, behind[0]);
      ShownStays(Step(info, behind[0]), a, behind[1..]);
    }
  }

  lemma {:induction false} WideStays(info: Info, a: Attr, behind: seq<Attr>)
    requires Shows(info, a) && Parse(info, behind).Some? && (a.kind.RxBytes64? || a.kind.TxBytes64?)
    requires forall x :: x in behind ==> x.kind != a.kind
    requires a.value % 0x1_0000_0000_0000_0000 == 0 ==> forall x :: x in behind ==> !IsPair(a.kind, x.kind)
    ensures Shows(Parse(info, behind).value, a)
    decreases |behind|
  {
    hide Step, Shows;
    if behind != [] {
      assert behind[0] in behind && forall x :: x in behind[1..] ==> x in behind;
      NotZero(info, a);
      StepKeepsShown(info, a, behind[0]);
      WideStays(Step(info, behind[0]), a, behind[1..]);
    }
  }

  lemma NotZero(info: Info, a: Attr)
    requires Shows(info, a) && (a.kind.RxBytes64? || a.kind.TxBytes64?)
    ensures Counter(info, a.kind) == 0 ==> a.value % 0x1_0000_0000_0000_0000 == 0
  {
  }

  /** The field of a kind is the same in both. */
  ghost predicate Kept(was: Info, now: Info, kind: Kind) {
    match kind
    case ConnectedTime => now.connected == was.connected
    case InactiveTime => now.inactive == was.inactive
    case RxBytes64 => now.rxBytes == was.rxBytes
    case TxBytes64 => now.txBytes == was.txBytes
    case Signal => now.signal == was.signal
    case RxPackets => now.rxPackets == was.rxPackets
    case TxPackets => now.txPackets == was.txPackets
    case TxRetries => now.retries == was.retries
    case TxFailed => now.failed == was.failed
    case BeaconLoss => now.beaconLoss == was.beaconLoss
    case RxBitrate => now.rxBitrate == was.rxBitrate
    case TxBitrate => now.txBitrate == was.txBitrate
    case RxBytes => now.rxBytes == was.rxBytes
    case TxBytes => now.txBytes == was.txBytes
    case Unknown(_) => true
  }

  lemma StepKeeps(info: Info, a: Attr, kind: Kind)
    requires a.kind != kind && !IsPair(kind, a.kind) && !IsPair(a.kind, kind)
    ensures Kept(info, Step(info, a), kind)
  {
    hide ToInt8, ToInt64, RateOf;
  }

  lemma KeptOn(was: Info, between: Info, now: Info, kind: Kind)
    ensures Kept(was, was, kind)
    ensures Kept(was, between, kind) && Kept(between, now, kind) ==> Kept(was, now, kind)
  {
  }

  /** A field that no attribute speaks of keeps what it was. */
  lemma {:induction false} AbsentKeeps(info: Info, attrs: seq<Attr>, kind: Kind)
    requires Parse(info, attrs).Some?
    requires forall x :: x in attrs ==> x.kind != kind && !IsPair(kind, x.kind) && !IsPair(x.kind, kind)
    ensures Kept(info, Parse(info, attrs).value, kind)
    decreases |attrs|
  {
    hide Step, Kept, IsPair;
    if attrs == [] {
      KeptOn(info, info, info, kind);
    } else {
      var next := Step(info, attrs[0]);
      assert attrs[0] in attrs && forall x :: x in attrs[1..] ==> x in attrs;
      StepKeeps(info, attrs[0], kind);
      AbsentKeeps(next, attrs[1..], kind);
      KeptOn(info, next, Parse(next, attrs[1..]).value, kind);
    }
  }

  // ----- The same for rates

  ghost predicate OneRatePerKind(attrs: seq<RateAttr>) {
    forall i, j :: 0 <= i < j < |attrs| ==> attrs[i].kind != attrs[j].kind
  }

  ghost predicate SameRates(a: seq<RateAttr>, b: seq<RateAttr>) {
    OneRatePerKind(a) && OneRatePerKind(b) && forall x :: x in a <==> x in b
  }

  /** No zero wide rate stands beside a narrow one that is not zero. */
  ghost predicate RatesAgree(attrs: seq<RateAttr>) {
    forall n :: RateAttr(Bitrate32, 0) in attrs && n in attrs && n.kind == Bitrate16 ==> n.value == 0
  }

  lemma {:induction false} RateFoldAppend(bitrate: nat, a: seq<RateAttr>, b: seq<RateAttr>)
    ensures RateFold(bitrate, a + b) == RateFold(RateFold(bitrate, a), b)
    decreases |a|
  {
    if a == [] {
      assert a + b == b;
    } else {
      assert (a + b)[1..] == a[1..] + b;
      RateFoldAppend(RateStep(bitrate, a[0]), a[1..], b);
    }
  }

  lemma {:induction false} RateKeeps(bitrate: nat, attrs: seq<RateAttr>)
    requires forall a :: a in attrs ==> a.kind != Bitrate32 && (a.kind == Bitrate16 ==> bitrate != 0 || a.value == 0)
    ensures RateFold(bitrate, attrs) == bitrate
    decreases |attrs|
  {
    if attrs != [] {
      assert attrs[0] in attrs && forall a :: a in attrs[1..] ==> a in attrs;
      RateKeeps(bitrate, attrs[1..]);
    }
  }

  /** Without a wide rate, a narrow one that is not zero leaves its mark. */
  lemma {:induction false} NarrowShows(attrs: seq<RateAttr>, n: RateAttr)
    requires n in attrs && n.kind == Bitrate16 && n.value != 0 && forall a :: a in attrs ==> a.kind != Bitrate32
    ensures RateFold(0, attrs) != 0
    decreases |attrs|
  {
    var a, rest := attrs[0], attrs[1..];
    assert a in attrs && forall x :: x in rest ==> x in attrs;
    if a.kind == Bitrate16 && a.value != 0 {
      RateKeeps(a.value, rest);
    } else {
      assert n in rest;
      NarrowShows(rest, n);
    }
  }

  /** The last wide rate decides, whatever stands before it and whatever was there, exactly when it is
      not zero or no narrow one behind it is other than zero. */
  lemma WideRateDecidesExactly(bitrate: nat, before: seq<RateAttr>, w: RateAttr, behind: seq<RateAttr>)
    requires w.kind == Bitrate32 && forall a :: a in behind ==> a.kind != Bitrate32
    ensures RateFold(bitrate, before + [w] + behind) == w.value <==>
            w.value != 0 || forall a :: a in behind && a.kind == Bitrate16 ==> a.value == 0
  {
    RateFoldAppend(bitrate, before + [w], behind);
    RateFoldAppend(bitrate, before, [w]);
    assert RateFold(RateFold(bitrate, before), [w]) == RateFold(w.value, []) == w.value;
    if w.value == 0 {
      if n :| n in behind && n.kind == Bitrate16 && n.value != 0 {
        NarrowShows(behind, n);
      } else {
        RateKeeps(0, behind);
      }
    } else {
      RateKeeps(w.value, behind);
    }
  }

  /** Without a wide one, the narrow rate decides. */
  lemma {:induction false} NarrowRateDecides(attrs: seq<RateAttr>, n: RateAttr)
    requires OneRatePerKind(attrs) && n in attrs && n.kind == Bitrate16
    requires forall a :: a in attrs ==> a.kind != Bitrate32
    ensures RateFold(0, attrs) == n.value
    decreases |attrs|
  {
    var a, rest := attrs[0], attrs[1..];
    assert forall i :: 0 <= i < |rest| ==> rest[i] == attrs[i + 1] && attrs[i + 1].kind != a.kind;
    assert a in attrs && forall x :: x in rest ==> x in attrs;
    if a == n {
      RateKeeps(n.value, rest);
    } else {
      assert n in rest;
      NarrowRateDecides(rest, n);
    }
  }

  lemma OthersOnePerKind(attrs: seq<RateAttr>, i: nat)
    requires OneRatePerKind(attrs) && i < |attrs|
    ensures OneRatePerKind(attrs[..i] + attrs[i + 1..])
  {
    var others := attrs[..i] + attrs[i + 1..];
    forall j, k | 0 <= j < k < |others| ensures others[j].kind != others[k].kind {
      assert others[j] == attrs[if j < i then j else j + 1];
      assert others[k] == attrs[if k < i then k else k + 1];
    }
  }

  /** Where an attribute stands in a list. */
  lemma SplitAt(attrs: seq<RateAttr>, w: RateAttr) returns (before: seq<RateAttr>, behind: seq<RateAttr>)
    requires OneRatePerKind(attrs) && w in attrs
    ensures attrs == before + [w] + behind
    ensures forall a :: a in before + behind <==> a in attrs && a.kind != w.kind
    ensures OneRatePerKind(before + behind)
  {
    var i :| 0 <= i < |attrs| && attrs[i] == w;
    before, behind := attrs[..i], attrs[i + 1..];
    OthersOnePerKind(attrs, i);
    assert forall a :: a in before ==> a in attrs && a.kind != w.kind;
    assert forall a :: a in behind ==> a in attrs && a.kind != w.kind;
    assert attrs == before + [w] + behind;
  }

  /** What a list that agrees says: its wide rate if present, else the narrow one, else zero. */
  lemma AgreedRate(attrs: seq<RateAttr>, w: RateAttr)
    requires OneRatePerKind(attrs) && RatesAgree(attrs) && w in attrs && w.kind == Bitrate32
    ensures RateFold(0, attrs) == w.value
  {
    var before, behind := SplitAt(attrs, w);
    assert forall a :: a in behind ==> a in before + behind;
    WideRateDecidesExactly(0, before, w, behind);
  }

  lemma AgreedOrder(a: seq<RateAttr>, b: seq<RateAttr>)
    requires SameRates(a, b) && RatesAgree(a)
    ensures RateFold(0, a) == RateFold(0, b)
  {
    if w :| w in a && w.kind == Bitrate32 {
      AgreedRate(a, w);
      AgreedRate(b, w);
    } else if n :| n in a && n.kind == Bitrate16 {
      NarrowRateDecides(a, n);
      NarrowRateDecides(b, n);
    } else {
      RateKeeps(0, a);
      RateKeeps(0, b);
    }
  }

  /** A list with its zero wide rate moved to the front, and to the end. */
  lemma ZeroWideMoves(a: seq<RateAttr>, n: RateAttr) returns (first: seq<RateAttr>, last: seq<RateAttr>)
    requires OneRatePerKind(a) && RateAttr(Bitrate32, 0) in a && n in a && n.kind == Bitrate16 && n.value != 0
    ensures SameRates(a, first) && SameRates(a, last) && RateFold(0, first) != RateFold(0, last)
  {
    var w := RateAttr(Bitrate32, 0);
    var before, behind := SplitAt(a, w);
    var others := before + behind;
    first, last := [] + [w] + others, others + [w] + [];
    assert [] + [w] + others == [w] + others && others + [w] + [] == others + [w];
    assert n in others;
    EndsOnePerKind(w, others);
    WideRateDecidesExactly(0, [], w, others);
    WideRateDecidesExactly(0, others, w, []);
  }

  lemma EndsOnePerKind(w: RateAttr, others: seq<RateAttr>)
    requires OneRatePerKind(others) && forall a :: a in others ==> a.kind != w.kind
    ensures OneRatePerKind([w] + others) && OneRatePerKind(others + [w])
  {
    assert forall i :: 0 <= i < |others| ==> others[i] in others;
  }

  /** With at most one attribute of a kind, every reordering gives the same rate exactly when no zero
      wide rate stands beside a narrow one that is not zero. */
  lemma RateOrderMattersExactly(a: seq<RateAttr>)
    requires OneRatePerKind(a)
    ensures (forall b :: SameRates(a, b) ==> RateFold(0, b) == RateFold(0, a)) <==> RatesAgree(a)
  {
    if RatesAgree(a) {
      forall b | SameRates(a, b) ensures RateFold(0, b) == RateFold(0, a) {
        AgreedOrder(a, b);
      }
    } else if n :| RateAttr(Bitrate32, 0) in a && n in a && n.kind == Bitrate16 && n.value != 0 {
      var first, last := ZeroWideMoves(a, n);
    }
  }

  /** A zero wide rate beside a narrow one: two rates for the two orders. */
  lemma RateOrderMattersOtherwise(n: nat)
    requires n != 0
    ensures RateFold(0, [RateAttr(Bitrate32, 0), RateAttr(Bitrate16, n)]) == n
    ensures RateFold(0, [RateAttr(Bitrate16, n), RateAttr(Bitrate32, 0)]) == 0
  {
    var w, s := RateAttr(Bitrate32, 0), RateAttr(Bitrate16, n);
    assert [w, s] == [w] + [s] && [s, w] == [s] + [w];
    RateFoldAppend(0, [w], [s]);
    RateFoldAppend(0, [s], [w]);
    RateOne(0, w);
    RateOne(0, s);
    RateOne(n, w);
  }

  lemma RateOne(bitrate: nat, a: RateAttr)
    ensures RateFold(bitrate, [a]) == RateStep(bitrate, a)
  {
    assert RateFold(RateStep(bitrate, a), []) == RateStep(bitrate, a) && [a][1..] == [];
  }
}
