/**
 The LoRa radio: register setters that share registers, seen as independent fields, and the two
 receive modes built from them.
 */
module Lora {
  import opened Bytes

  const REGISTERS := 128
  const OP_MODE := 0x01
  const FRF_MSB := 0x06
  const FRF_MID := 0x07
  const FRF_LSB := 0x08
  const PA_CONFIG := 0x09
  const MODEM_CONFIG_1 := 0x1D
  const MODEM_CONFIG_2 := 0x1E
  const PREAMBLE_MSB := 0x20
  const PREAMBLE_LSB := 0x21
  const PAYLOAD_LENGTH := 0x22
  const DETECTION_OPTIMIZE := 0x31
  const INVERT_IQ := 0x33
  const DETECTION_THRESHOLD := 0x37
  const SYNC_WORD := 0x39
  const INVERT_IQ2 := 0x3B

  type Registers = r: seq<bv8> | |r| == REGISTERS witness seq(REGISTERS, _ => 0)

  /** What the registers hold, field by field; together the fields are all the bits there are. */
  datatype Field =
    | Bandwidth | CodingRate | HeaderMode
    | SpreadingFactor | Crc | Remainder
    | Preamble | Carrier | Other(reg: nat)

  predicate IsShared(reg: nat) {
    reg in {FRF_MSB, FRF_MID, FRF_LSB, MODEM_CONFIG_1, MODEM_CONFIG_2, PREAMBLE_MSB, PREAMBLE_LSB}
  }

  function Num(b: bv8): (n: nat)
    ensures n < 256
  {
    b as int
  }

  function High(b: bv8): nat {
    Num(b >> 4)
  }

  function Coding(b: bv8): nat {
    Num((b >> 1) & 7)
  }

  function Lowest(b: bv8): nat {
    Num(b & 1)
  }

  function Third(b: bv8): nat {
    Num((b >> 2) & 1)
  }

  function Rest(b: bv8): nat {
    Num(b & 0x0B)
  }

  function Reading(r: Registers, f: Field): int {
    match f
    case Bandwidth => High(r[MODEM_CONFIG_1])
    case CodingRate => Coding(r[MODEM_CONFIG_1]) + 4
    case HeaderMode => Lowest(r[MODEM_CONFIG_1])
    case SpreadingFactor => High(r[MODEM_CONFIG_2])
    case Crc => Third(r[MODEM_CONFIG_2])
    case Remainder => Rest(r[MODEM_CONFIG_2])
    case Preamble => Num(r[PREAMBLE_MSB]) * 256 + Num(r[PREAMBLE_LSB])
    case Carrier => (Num(r[FRF_MSB]) * 256 + Num(r[FRF_MID])) * 256 + Num(r[FRF_LSB])
    case Other(reg) => if reg < REGISTERS && !IsShared(reg) then Num(r[reg]) else 0
  }

  // ----- What each call asks for

  datatype Call =
    | SetHeader(size: Option<int>)
    | Idle | Sleep | Receive
    | SetTxPower(level: int)
    | SetFrequency(hz: int)
    | SetSpreadingFactor(sf: int)
    | SetBandwidth(sbw: int)
    | SetCodingRate(denominator: int)
    | SetPreamble(length: int)
    | SetSyncWord(word: int)
    | SetCrc(on: bool)
    | SetInvertIq(inv: bool)

  function Clamp(lo: int, x: int, hi: int): int
    requires lo <= hi
  {
    if x < lo then lo else if x > hi then hi else x
  }

  /** The bandwidths below the widest, in Hz. */
  const WIDTHS: seq<int> := [7800, 10400, 15600, 20800, 31250, 41700, 62500, 125000, 250000]

  /** The narrowest bandwidth that is at least `hz`, from entry `i` on. */
  function WidthCode(hz: int, i: nat): (c: nat)
    requires i <= |WIDTHS|
    ensures i <= c <= |WIDTHS|
    ensures c < |WIDTHS| ==> hz <= WIDTHS[c]
    ensures forall j :: i <= j < c ==> WIDTHS[j] < hz
    decreases |WIDTHS| - i
  {
    if i == |WIDTHS| || hz <= WIDTHS[i] then i else WidthCode(hz, i + 1)
  }

  const STEP := 32000000
  const SHIFT := 0x80000

  /** The carrier in steps of the synthesizer, computed in 64 unsigned bits and kept in 24. */
  function Steps(hz: int): nat {
    hz * SHIFT % 0x1_0000_0000_0000_0000 / STEP
  }

  /** The value a call gives to a field, if it sets it. */
  function Sets(c: Call, f: Field): Option<int> {
    match (c, f)
    case (SetHeader(size), HeaderMode) => Some(if size.Some? then 1 else 0)
    case (SetHeader(Some(n)), Other(reg)) => if reg == PAYLOAD_LENGTH then Some(n % 256) else None
    case (Idle, Other(reg)) => if reg == OP_MODE then Some(0x81) else None
    case (Sleep, Other(reg)) => if reg == OP_MODE then Some(0x80) else None
    case (Receive, Other(reg)) => if reg == OP_MODE then Some(0x85) else None
    case (SetTxPower(level), Other(reg)) =>
      if reg == PA_CONFIG then Some(0x80 + Clamp(2, level, 17) - 2) else None
    case (SetFrequency(hz), Carrier) => Some(Steps(hz) % 0x100_0000)
    case (SetSpreadingFactor(sf), SpreadingFactor) => Some(Clamp(6, sf, 12))
    case (SetSpreadingFactor(sf), Other(reg)) =>
      if reg == DETECTION_OPTIMIZE then Some(if sf <= 6 then 0xC5 else 0xC3)
      else if reg == DETECTION_THRESHOLD then Some(if sf <= 6 then 0x0C else 0x0A)
      else None
    case (SetBandwidth(sbw), Bandwidth) => Some(WidthCode(sbw, 0))
    case (SetCodingRate(d), CodingRate) => Some(Clamp(5, d, 8))
    case (SetPreamble(n), Preamble) => Some(n % 0x1_0000)
    case (SetSyncWord(w), Other(reg)) => if reg == SYNC_WORD then Some(w % 256) else None
    case (SetCrc(on), Crc) => Some(if on then 1 else 0)
    case (SetInvertIq(inv), Other(reg)) =>
      if reg == INVERT_IQ then Some(if inv then 0x66 else 0x27)
      else if reg == INVERT_IQ2 then Some(if inv then 0x19 else 0x1D)
      else None
    case _ => None
  }

  function OrElse(o: Option<int>, d: int): int {
    if o.Some? then o.value else d
  }

  /** The last value any of the calls gives to a field, `first` if none does. */
  function LastSet(calls: seq<Call>, f: Field, first: int): int
    decreases |calls|
  {
    if calls == [] then first
    else
      var n := |calls| - 1;
      OrElse(Sets(calls[n], f), LastSet(calls[..n], f, first))
  }

  /** The fields that a call sets have their new value; all others read as before. */
  ghost predicate Updated(r0: Registers, r1: Registers, c: Call) {
    forall f: Field :: Reading(r1, f) == OrElse(Sets(c, f), Reading(r0, f))
  }

  /** Every field reads as its last setting, whatever else was set since. */
  ghost predicate UpdatedAll(r0: Registers, r1: Registers, calls: seq<Call>) {
    forall f: Field :: Reading(r1, f) == LastSet(calls, f, Reading(r0, f))
  }

  lemma UpdatedNext(r0: Registers, r1: Registers, r2: Registers, calls: seq<Call>, c: Call)
    requires UpdatedAll(r0, r1, calls) && Updated(r1, r2, c)
    ensures UpdatedAll(r0, r2, calls + [c])
  {
    var all := calls + [c];
    assert all[..|all| - 1] == calls;
  }

  // ----- What the masks do to one register

  /** The register value of a number. */
  function Bits(n: Byte): (b: bv8)
    ensures Num(b) == n
  {
    if n == 0 then 0 else Bits(n - 1) + 1
  }

  /** The lowest byte of a two's complement number, which is what a register takes of it. */
  function Low(v: int): (b: bv8)
    ensures Num(b) == v % 256
  {
    Bits(v % 256)
  }

  // Each mask changes one field and leaves the others of its register alone.

  function WithHeader(b: bv8, isImplicit: bool): (w: bv8)
    ensures Lowest(w) == if isImplicit then 1 else 0
    ensures High(w) == High(b) && Coding(w) == Coding(b)
  {
    if isImplicit then b | 0x01 else b & 0xFE
  }

  function WithBandwidth(b: bv8, n: bv8): (w: bv8)
    requires Num(n) < 16
    ensures High(w) == Num(n) && Coding(w) == Coding(b) && Lowest(w) == Lowest(b)
  {
    (b & 0x0F) | (n << 4)
  }

  function WithCoding(b: bv8, n: bv8): (w: bv8)
    requires Num(n) < 8
    ensures Coding(w) == Num(n) && High(w) == High(b) && Lowest(w) == Lowest(b)
  {
    (b & 0xF1) | (n << 1)
  }

  function WithFactor(b: bv8, n: bv8): (w: bv8)
    requires Num(n) < 16
    ensures High(w) == Num(n) && Third(w) == Third(b) && Rest(w) == Rest(b)
  {
    (b & 0x0F) | ((n << 4) & 0xF0)
  }

  function WithCrc(b: bv8, on: bool): (w: bv8)
    ensures Third(w) == if on then 1 else 0
    ensures High(w) == High(b) && Rest(w) == Rest(b)
  {
    if on then b | 0x04 else b & 0xFB
  }

  function WithBoost(n: bv8): (w: bv8)
    requires Num(n) < 16
    ensures Num(w) == 0x80 + Num(n)
  {
    0x80 | n
  }

  lemma DetectionValues()
    ensures Num(0xC5) == 0xC5 && Num(0xC3) == 0xC3 && Num(0x0C) == 0x0C && Num(0x0A) == 0x0A
  {
  }

  lemma Bytes3(n: nat)
    ensures (n / 0x1_0000 % 256 * 256 + n / 0x100 % 256) * 256 + n % 256 == n % 0x100_0000
  {
    var h := n / 0x1_0000;
    assert n / 0x100 / 0x100 == h;
    assert h / 256 == n / 0x100_0000;
  }

  // ----- What a call does to all of them

  lemma Config1Written(r: Registers, c: Call, w: bv8)
    requires High(w) == OrElse(Sets(c, Bandwidth), High(r[MODEM_CONFIG_1]))
    requires Coding(w) + 4 == OrElse(Sets(c, CodingRate), Coding(r[MODEM_CONFIG_1]) + 4)
    requires Lowest(w) == OrElse(Sets(c, HeaderMode), Lowest(r[MODEM_CONFIG_1]))
    requires c == SetHeader(None) || c.SetBandwidth? || c.SetCodingRate?
    ensures Updated(r, r[MODEM_CONFIG_1 := w], c)
  {
    hide Num, High, Coding, Lowest, Third, Rest;
  }

  lemma ImplicitWritten(r: Registers, n: int, w: bv8, p: bv8)
    requires High(w) == High(r[MODEM_CONFIG_1]) && Coding(w) == Coding(r[MODEM_CONFIG_1]) && Lowest(w) == 1
    requires Num(p) == n % 256
    ensures Updated(r, r[MODEM_CONFIG_1 := w][PAYLOAD_LENGTH := p], SetHeader(Some(n)))
  {
    hide Num, High, Coding, Lowest, Third, Rest;
  }

  lemma OneWritten(r: Registers, c: Call, reg: nat, w: bv8)
    requires reg < REGISTERS && !IsShared(reg) && Sets(c, Other(reg)) == Some(Num(w))
    requires c.Idle? || c.Sleep? || c.Receive? || c.SetTxPower? || c.SetSyncWord?
    ensures Updated(r, r[reg := w], c)
  {
    hide Num, High, Coding, Lowest, Third, Rest;
  }

  lemma IqWritten(r: Registers, inv: bool, w: bv8, w2: bv8)
    requires Num(w) == if inv then 0x66 else 0x27
    requires Num(w2) == if inv then 0x19 else 0x1D
    ensures Updated(r, r[INVERT_IQ := w][INVERT_IQ2 := w2], SetInvertIq(inv))
  {
    hide Num, High, Coding, Lowest, Third, Rest;
  }

  lemma PreambleWritten(r: Registers, length: int, msb: bv8, lsb: bv8)
    requires Num(msb) == length / 256 % 256 && Num(lsb) == length % 256
    ensures Updated(r, r[PREAMBLE_MSB := msb][PREAMBLE_LSB := lsb], SetPreamble(length))
  {
    hide Num, High, Coding, Lowest, Third, Rest;
    assert length / 256 / 256 == length / 0x1_0000;
  }

  lemma FrequencyWritten(r: Registers, hz: int, msb: bv8, mid: bv8, lsb: bv8)
    requires Num(msb) == Steps(hz) / 0x1_0000 % 256
    requires Num(mid) == Steps(hz) / 0x100 % 256
    requires Num(lsb) == Steps(hz) % 256
    ensures Updated(r, r[FRF_MSB := msb][FRF_MID := mid][FRF_LSB := lsb], SetFrequency(hz))
  {
    hide Num, High, Coding, Lowest, Third, Rest, Steps;
    Bytes3(Steps(hz));
  }

  lemma FactorWritten(r: Registers, sf: int, o: bv8, t: bv8, w: bv8)
    requires Num(o) == if sf <= 6 then 0xC5 else 0xC3
    requires Num(t) == if sf <= 6 then 0x0C else 0x0A
    requires High(w) == Clamp(6, sf, 12)
    requires Third(w) == Third(r[MODEM_CONFIG_2]) && Rest(w) == Rest(r[MODEM_CONFIG_2])
    ensures Updated(r, r[DETECTION_OPTIMIZE := o][DETECTION_THRESHOLD := t][MODEM_CONFIG_2 := w],
                    SetSpreadingFactor(sf))
  {
    hide Num, High, Coding, Lowest, Third, Rest;
  }

  lemma CrcWritten(r: Registers, on: bool, w: bv8)
    requires High(w) == High(r[MODEM_CONFIG_2]) && Rest(w) == Rest(r[MODEM_CONFIG_2])
    requires Third(w) == if on then 1 else 0
    ensures Updated(r, r[MODEM_CONFIG_2 := w], SetCrc(on))
  {
    hide Num, High, Coding, Lowest, Third, Rest;
  }

  // ----- The driver

  const DOWNSTREAM: seq<int> := [923300000, 923900000, 924500000, 925100000, 925700000, 926300000, 926900000, 927500000]

  /** What listening sets, in order. */
  function ListenCalls(hz: int, inv: bool, size: Option<int>, sf: int, cr: int): seq<Call> {
    [SetFrequency(hz), SetInvertIq(inv), SetHeader(size), SetSpreadingFactor(sf), SetCodingRate(cr), Receive]
  }

  function BeaconCalls(size: int, band: nat): seq<Call>
    requires band < 8
  {
    ListenCalls(DOWNSTREAM[band], false, Some(size), 12, 5)
  }

  function UpstreamCalls(sf: int, cr: int): seq<Call> {
    ListenCalls(DOWNSTREAM[0], true, None, sf, cr)
  }

  class Radio {
    const regs: array<bv8>

    /** Whether the length of a packet is read from the length register. */
    var implicitHeader: bool
    var frequency: int

    var beaconReceive: bool
    var dataReceive: bool
    var beaconBand: nat
    var loraBeacons: nat
    var loraReceived: nat
    var sf: int
    var cr: int

    ghost predicate Valid()
      reads this
    {
      regs.Length == REGISTERS && beaconBand < 8
    }

    /** The chip comes up with registers of its own. */
    constructor (chip: Registers)
      ensures Valid() && fresh(regs) && regs[..] == chip
      ensures !implicitHeader && !beaconReceive && !dataReceive && beaconBand == 0
      ensures sf == 12 && cr == 5 && loraBeacons == 0 && loraReceived == 0
    {
      regs := new bv8[REGISTERS](i requires 0 <= i < REGISTERS => chip[i]);
      implicitHeader, frequency, beaconReceive, dataReceive := false, 0, false, false;
      beaconBand, loraBeacons, loraReceived, sf, cr := 0, 0, 0, 12, 5;
    }

    method ExplicitHeaderMode()
      requires Valid()
      modifies regs, this`implicitHeader
      ensures Updated(old(regs[..]), regs[..], SetHeader(None)) && !implicitHeader
    {
      hide Updated;
      ghost var was := regs[..];
      implicitHeader := false;
      regs[MODEM_CONFIG_1] := WithHeader(regs[MODEM_CONFIG_1], false);
      Config1Written(was, SetHeader(None), regs[MODEM_CONFIG_1]);
      assert regs[..] == was[MODEM_CONFIG_1 := regs[MODEM_CONFIG_1]];
    }

    method ImplicitHeaderMode(size: int)
      requires Valid()
      modifies regs, this`implicitHeader
      ensures Updated(old(regs[..]), regs[..], SetHeader(Some(size))) && implicitHeader
    {
      hide Updated;
      ghost var was := regs[..];
      implicitHeader := true;
      regs[MODEM_CONFIG_1] := WithHeader(regs[MODEM_CONFIG_1], true);
      regs[PAYLOAD_LENGTH] := Low(size);
      ImplicitWritten(was, size, regs[MODEM_CONFIG_1], regs[PAYLOAD_LENGTH]);
      assert regs[..] == was[MODEM_CONFIG_1 := regs[MODEM_CONFIG_1]][PAYLOAD_LENGTH := regs[PAYLOAD_LENGTH]];
    }

    method SetMode(c: Call)
      requires Valid() && (c.Idle? || c.Sleep? || c.Receive?)
      modifies regs
      ensures Updated(old(regs[..]), regs[..], c)
    {
      hide Updated;
      ghost var was := regs[..];
      regs[OP_MODE] := if c.Idle? then 0x81 else if c.Sleep? then 0x80 else 0x85;
      OneWritten(was, c, OP_MODE, regs[OP_MODE]);
      assert regs[..] == was[OP_MODE := regs[OP_MODE]];
    }

    method SetTxPower(level: int)
      requires Valid()
      modifies regs
      ensures Updated(old(regs[..]), regs[..], Call.SetTxPower(level))
    {
      hide Updated, Num, High, Coding, Lowest, Third, Rest, Low, WithFactor, WithBandwidth, WithCoding, WithBoost;
      ghost var was := regs[..];
      var l := level;
      if l < 2 {
        l := 2;
      } else if l > 17 {
        l := 17;
      }
      regs[PA_CONFIG] := WithBoost(Low(l - 2));
      OneWritten(was, Call.SetTxPower(level), PA_CONFIG, regs[PA_CONFIG]);
      assert regs[..] == was[PA_CONFIG := regs[PA_CONFIG]];
    }

    method SetFrequency(hz: int)
      requires Valid()
      modifies regs, this`frequency
      ensures Updated(old(regs[..]), regs[..], Call.SetFrequency(hz)) && frequency == hz
    {
      hide Updated, Steps;
      ghost var was := regs[..];
      frequency := hz;
      var frf := Steps(hz);
      regs[FRF_MSB] := Low(frf / 0x1_0000);
      regs[FRF_MID] := Low(frf / 0x100);
      regs[FRF_LSB] := Low(frf);
      FrequencyWritten(was, hz, regs[FRF_MSB], regs[FRF_MID], regs[FRF_LSB]);
      assert regs[..] == was[FRF_MSB := regs[FRF_MSB]][FRF_MID := regs[FRF_MID]][FRF_LSB := regs[FRF_LSB]];
    }

    method SetSpreadingFactor(factor: int)
      requires Valid()
      modifies regs
      ensures Updated(old(regs[..]), regs[..], Call.SetSpreadingFactor(factor))
    {
      hide Updated, Num, High, Coding, Lowest, Third, Rest, Low, WithFactor, WithBandwidth, WithCoding, WithBoost;
      ghost var was := regs[..];
      var s := factor;
      if s < 6 {
        s := 6;
      } else if s > 12 {
        s := 12;
      }
      if s == 6 {
        regs[DETECTION_OPTIMIZE] := 0xC5;
        regs[DETECTION_THRESHOLD] := 0x0C;
      } else {
        regs[DETECTION_OPTIMIZE] := 0xC3;
        regs[DETECTION_THRESHOLD] := 0x0A;
      }
      regs[MODEM_CONFIG_2] := WithFactor(regs[MODEM_CONFIG_2], Low(s));
      DetectionValues();
      FactorWritten(was, factor, regs[DETECTION_OPTIMIZE], regs[DETECTION_THRESHOLD], regs[MODEM_CONFIG_2]);
      assert regs[..] == was[DETECTION_OPTIMIZE := regs[DETECTION_OPTIMIZE]]
                            [DETECTION_THRESHOLD := regs[DETECTION_THRESHOLD]]
                            [MODEM_CONFIG_2 := regs[MODEM_CONFIG_2]];
    }

    method SetBandwidth(sbw: int)
      requires Valid()
      modifies regs
      ensures Updated(old(regs[..]), regs[..], Call.SetBandwidth(sbw))
    {
      hide Updated, Num, High, Coding, Lowest, Third, Rest, Low, WithFactor, WithBandwidth, WithCoding, WithBoost;
      ghost var was := regs[..];
      var bw: int;
      if sbw <= 7800 { bw := 0; }
      else if sbw <= 10400 { bw := 1; }
      else if sbw <= 15600 { bw := 2; }
      else if sbw <= 20800 { bw := 3; }
      else if sbw <= 31250 { bw := 4; }
      else if sbw <= 41700 { bw := 5; }
      else if sbw <= 62500 { bw := 6; }
      else if sbw <= 125000 { bw := 7; }
      else if sbw <= 250000 { bw := 8; }
      else { bw := 9; }
      CodeIs(sbw, bw);
      regs[MODEM_CONFIG_1] := WithBandwidth(regs[MODEM_CONFIG_1], Low(bw));
      Config1Written(was, Call.SetBandwidth(sbw), regs[MODEM_CONFIG_1]);
      assert regs[..] == was[MODEM_CONFIG_1 := regs[MODEM_CONFIG_1]];
    }

    method SetCodingRate(denominator: int)
      requires Valid()
      modifies regs
      ensures Updated(old(regs[..]), regs[..], Call.SetCodingRate(denominator))
    {
      hide Updated, Num, High, Coding, Lowest, Third, Rest, Low, WithFactor, WithBandwidth, WithCoding, WithBoost;
      ghost var was := regs[..];
      var d := denominator;
      if d < 5 {
        d := 5;
      } else if d > 8 {
        d := 8;
      }
      regs[MODEM_CONFIG_1] := WithCoding(regs[MODEM_CONFIG_1], Low(d - 4));
      Config1Written(was, Call.SetCodingRate(denominator), regs[MODEM_CONFIG_1]);
      assert regs[..] == was[MODEM_CONFIG_1 := regs[MODEM_CONFIG_1]];
    }

    method SetPreambleLength(length: int)
      requires Valid()
      modifies regs
      ensures Updated(old(regs[..]), regs[..], SetPreamble(length))
    {
      hide Updated;
      ghost var was := regs[..];
      regs[PREAMBLE_MSB] := Low(length / 256);
      regs[PREAMBLE_LSB] := Low(length);
      PreambleWritten(was, length, regs[PREAMBLE_MSB], regs[PREAMBLE_LSB]);
      assert regs[..] == was[PREAMBLE_MSB := regs[PREAMBLE_MSB]][PREAMBLE_LSB := regs[PREAMBLE_LSB]];
    }

    method SetSyncWord(word: int)
      requires Valid()
      modifies regs
      ensures Updated(old(regs[..]), regs[..], Call.SetSyncWord(word))
    {
      hide Updated;
      ghost var was := regs[..];
      regs[SYNC_WORD] := Low(word);
      OneWritten(was, Call.SetSyncWord(word), SYNC_WORD, regs[SYNC_WORD]);
      assert regs[..] == was[SYNC_WORD := regs[SYNC_WORD]];
    }

    method SetCrc(on: bool)
      requires Valid()
      modifies regs
      ensures Updated(old(regs[..]), regs[..], Call.SetCrc(on))
    {
      hide Updated;
      ghost var was := regs[..];
      regs[MODEM_CONFIG_2] := WithCrc(regs[MODEM_CONFIG_2], on);
      CrcWritten(was, on, regs[MODEM_CONFIG_2]);
      assert regs[..] == was[MODEM_CONFIG_2 := regs[MODEM_CONFIG_2]];
    }

    method InvertIq(inv: bool)
      requires Valid()
      modifies regs
      ensures Updated(old(regs[..]), regs[..], SetInvertIq(inv))
    {
      hide Updated;
      ghost var was := regs[..];
      if inv {
        regs[INVERT_IQ] := 0x66;
        regs[INVERT_IQ2] := 0x19;
      } else {
        regs[INVERT_IQ] := 0x27;
        regs[INVERT_IQ2] := 0x1D;
      }
      IqWritten(was, inv, regs[INVERT_IQ], regs[INVERT_IQ2]);
      assert regs[..] == was[INVERT_IQ := regs[INVERT_IQ]][INVERT_IQ2 := regs[INVERT_IQ2]];
    }

    /** Any one setter; the driver's copy of the header mode moves with the register bit. */
    method Do(c: Call)
      requires Valid()
      modifies regs, this`implicitHeader, this`frequency
      ensures Updated(old(regs[..]), regs[..], c)
      ensures implicitHeader == (OrElse(Sets(c, HeaderMode), if old(implicitHeader) then 1 else 0) == 1)
    {
      hide Updated;
      match c
      case SetHeader(None) => ExplicitHeaderMode();
      case SetHeader(Some(n)) => ImplicitHeaderMode(n);
      case Idle => SetMode(c);
      case Sleep => SetMode(c);
      case Receive => SetMode(c);
      case SetTxPower(level) => SetTxPower(level);
      case SetFrequency(hz) => SetFrequency(hz);
      case SetSpreadingFactor(s) => SetSpreadingFactor(s);
      case SetBandwidth(sbw) => SetBandwidth(sbw);
      case SetCodingRate(d) => SetCodingRate(d);
      case SetPreamble(n) => SetPreambleLength(n);
      case SetSyncWord(w) => SetSyncWord(w);
      case SetCrc(on) => SetCrc(on);
      case SetInvertIq(inv) => InvertIq(inv);
    }

    /** Any sequence of setters: every field ends as its last setting. */
    method DoAll(calls: seq<Call>)
      requires Valid()
      modifies regs, this`implicitHeader, this`frequency
      ensures UpdatedAll(old(regs[..]), regs[..], calls)
      ensures implicitHeader == (LastSet(calls, HeaderMode, if old(implicitHeader) then 1 else 0) == 1)
    {
      hide Updated, UpdatedAll;
      ghost var was := regs[..];
      NothingUpdated(was);
      for i := 0 to |calls|
        invariant UpdatedAll(was, regs[..], calls[..i])
        invariant implicitHeader == (LastSet(calls[..i], HeaderMode, if old(implicitHeader) then 1 else 0) == 1)
      {
        ghost var before := regs[..];
        Do(calls[i]);
        UpdatedNext(was, before, regs[..], calls[..i], calls[i]);
        assert calls[..i + 1] == calls[..i] + [calls[i]];
        LastSetNext(calls[..i], calls[i], HeaderMode, if old(implicitHeader) then 1 else 0);
      }
      assert calls[..|calls|] == calls;
    }

    method ReceiveBeacon(size: int)
      requires Valid()
      modifies this, regs
      ensures Valid() && UpdatedAll(old(regs[..]), regs[..], BeaconCalls(size, old(beaconBand)))
      ensures beaconReceive && implicitHeader && frequency == 923300000 + 600000 * old(beaconBand)
      ensures dataReceive == old(dataReceive) && beaconBand == old(beaconBand) && sf == old(sf) && cr == old(cr)
      ensures loraBeacons == old(loraBeacons) && loraReceived == old(loraReceived)
    {
      hide Updated, UpdatedAll;
      ghost var r0 := regs[..];
      beaconReceive := true;
      SetFrequency(DOWNSTREAM[beaconBand]);
      ghost var r1 := regs[..];
      InvertIq(false);
      ghost var r2 := regs[..];
      ImplicitHeaderMode(size);
      ghost var r3 := regs[..];
      SetSpreadingFactor(12);
      ghost var r4 := regs[..];
      SetCodingRate(5);
      ghost var r5 := regs[..];
      SetMode(Receive);
      SixUpdated([r0, r1, r2, r3, r4, r5, regs[..]], BeaconCalls(size, beaconBand));
    }

    method ReceiveUpstream()
      requires Valid()
      modifies this, regs
      ensures Valid() && UpdatedAll(old(regs[..]), regs[..], UpstreamCalls(old(sf), old(cr)))
      ensures !beaconReceive && dataReceive && !implicitHeader && frequency == 923300000
      ensures beaconBand == old(beaconBand) && sf == old(sf) && cr == old(cr)
      ensures loraBeacons == old(loraBeacons) && loraReceived == old(loraReceived)
    {
      hide Updated, UpdatedAll;
      ghost var r0 := regs[..];
      beaconReceive := false;
      dataReceive := true;
      SetFrequency(DOWNSTREAM[0]);
      ghost var r1 := regs[..];
      InvertIq(true);
      ghost var r2 := regs[..];
      ExplicitHeaderMode();
      ghost var r3 := regs[..];
      SetSpreadingFactor(sf);
      ghost var r4 := regs[..];
      SetCodingRate(cr);
      ghost var r5 := regs[..];
      SetMode(Receive);
      SixUpdated([r0, r1, r2, r3, r4, r5, regs[..]], UpstreamCalls(sf, cr));
    }

    /** A packet came in: count it, move on to the next band after a beacon, and listen again. */
    method Received(size: int)
      requires Valid()
      modifies this, regs
      ensures Valid() && sf == old(sf) && cr == old(cr)
      ensures beaconReceive == old(beaconReceive) && dataReceive == old(dataReceive)
      ensures beaconBand == if beaconReceive then (old(beaconBand) + 1) % 8 else old(beaconBand)
      ensures loraBeacons == old(loraBeacons) + if beaconReceive then 1 else 0
      ensures loraReceived == old(loraReceived) + if !beaconReceive && dataReceive then 1 else 0
      ensures UpdatedAll(old(regs[..]), regs[..],
                         if beaconReceive then BeaconCalls(size, beaconBand)
                         else if dataReceive then UpstreamCalls(sf, cr) else [])
      ensures implicitHeader == (beaconReceive || (!dataReceive && old(implicitHeader)))
    {
      hide UpdatedAll;
      NothingUpdated(regs[..]);
      if beaconReceive {
        loraBeacons := loraBeacons + 1;
        beaconBand := beaconBand + 1;
        if beaconBand > 7 {
          beaconBand := 0;
        }
        ReceiveBeacon(size);
      } else if dataReceive {
        loraReceived := loraReceived + 1;
        ReceiveUpstream();
      }
    }

    /** The read task over `n` packets: beacons take the bands in turn, and the registers follow. */
    method ReadTask(n: nat, size: int)
      requires Valid() && (beaconReceive || dataReceive)
      requires beaconReceive ==> ReadyForBeacon(regs[..], size, beaconBand)
      requires !beaconReceive ==> ReadyForData(regs[..], sf, cr)
      requires implicitHeader == (Reading(regs[..], HeaderMode) == 1)
      modifies this, regs
      ensures Valid() && beaconReceive == old(beaconReceive) && sf == old(sf) && cr == old(cr)
      ensures beaconReceive ==> beaconBand == (old(beaconBand) + n) % 8 && loraBeacons == old(loraBeacons) + n
      ensures !beaconReceive ==> beaconBand == old(beaconBand) && loraReceived == old(loraReceived) + n
      ensures beaconReceive ==> ReadyForBeacon(regs[..], size, beaconBand)
      ensures !beaconReceive ==> ReadyForData(regs[..], sf, cr)
      ensures implicitHeader == (Reading(regs[..], HeaderMode) == 1)
      ensures Reading(regs[..], Bandwidth) == old(Reading(regs[..], Bandwidth))
      ensures Reading(regs[..], Crc) == old(Reading(regs[..], Crc))
    {
      hide UpdatedAll, Reading, ReadyForBeacon, ReadyForData;
      for i := 0 to n
        invariant Valid() && beaconReceive == old(beaconReceive) && dataReceive == old(dataReceive)
        invariant sf == old(sf) && cr == old(cr)
        invariant beaconReceive ==> beaconBand == (old(beaconBand) + i) % 8 && loraBeacons == old(loraBeacons) + i
        invariant !beaconReceive ==> beaconBand == old(beaconBand) && loraReceived == old(loraReceived) + i
        invariant beaconReceive ==> ReadyForBeacon(regs[..], size, beaconBand)
        invariant !beaconReceive ==> ReadyForData(regs[..], sf, cr)
        invariant implicitHeader == (Reading(regs[..], HeaderMode) == 1)
        invariant Reading(regs[..], Bandwidth) == old(Reading(regs[..], Bandwidth))
        invariant Reading(regs[..], Crc) == old(Reading(regs[..], Crc))
      {
        ghost var before := regs[..];
        Received(size);
        if beaconReceive {
          BeaconReady(before, regs[..], size, beaconBand);
        } else {
          DataReady(before, regs[..], sf, cr);
        }
      }
    }
  }

  lemma NothingUpdated(r: Registers)
    ensures UpdatedAll(r, r, [])
  {
  }

  lemma SixUpdated(r: seq<Registers>, calls: seq<Call>)
    requires |calls| == 6 && |r| == 7
    requires forall i :: 0 <= i < 6 ==> Updated(r[i], r[i + 1], calls[i])
    ensures UpdatedAll(r[0], r[6], calls)
  {
    hide Updated, UpdatedAll;
    NothingUpdated(r[0]);
    assert calls[..0] == [];
    for i := 0 to 6
      invariant UpdatedAll(r[0], r[i], calls[..i])
    {
      UpdatedNext(r[0], r[i], r[i + 1], calls[..i], calls[i]);
      assert calls[..i + 1] == calls[..i] + [calls[i]];
    }
    assert calls[..6] == calls;
  }

  lemma LastSetNext(calls: seq<Call>, c: Call, f: Field, first: int)
    ensures LastSet(calls + [c], f, first) == OrElse(Sets(c, f), LastSet(calls, f, first))
  {
    var all := calls + [c];
    assert all[..|all| - 1] == calls;
  }

  lemma CodeIs(sbw: int, bw: nat)
    requires bw <= |WIDTHS|
    requires bw < |WIDTHS| ==> sbw <= WIDTHS[bw]
    requires bw > 0 ==> WIDTHS[bw - 1] < sbw
    ensures WidthCode(sbw, 0) == bw
  {
    var c := WidthCode(sbw, 0);
    WidthsGrow();
  }

  lemma WidthsGrow()
    ensures forall i, j :: 0 <= i <= j < |WIDTHS| ==> WIDTHS[i] <= WIDTHS[j]
  {
  }

  // ----- Runs

  /** A field holds what the last call that sets it asked for, whatever the other calls were. */
  lemma {:induction false} LastSettingWins(calls: seq<Call>, i: nat, f: Field, first: int)
    requires i < |calls| && Sets(calls[i], f).Some?
    requires forall j :: i < j < |calls| ==> Sets(calls[j], f) == None
    ensures LastSet(calls, f, first) == Sets(calls[i], f).value
    decreases |calls|
  {
    var n := |calls| - 1;
    if i < n {
      LastSettingWins(calls[..n], i, f, first);
    }
  }

  /** A field that no call sets keeps what it held. */
  lemma {:induction false} NeverSet(calls: seq<Call>, f: Field, first: int)
    requires forall j :: 0 <= j < |calls| ==> Sets(calls[j], f) == None
    ensures LastSet(calls, f, first) == first
    decreases |calls|
  {
    if calls != [] {
      NeverSet(calls[..|calls| - 1], f, first);
    }
  }

  /** One run after another is one run. */
  lemma RunsCompose(r0: Registers, r1: Registers, r2: Registers, a: seq<Call>, b: seq<Call>)
    requires UpdatedAll(r0, r1, a) && UpdatedAll(r1, r2, b)
    ensures UpdatedAll(r0, r2, a + b)
  {
    forall f: Field ensures LastSet(a + b, f, Reading(r0, f)) == LastSet(b, f, LastSet(a, f, Reading(r0, f))) {
      LastSetAppend(a, b, f, Reading(r0, f));
    }
  }

  lemma {:induction false} LastSetAppend(a: seq<Call>, b: seq<Call>, f: Field, first: int)
    ensures LastSet(a + b, f, first) == LastSet(b, f, LastSet(a, f, first))
    decreases |b|
  {
    if b == [] {
      assert a + b == a;
    } else {
      var n := |b| - 1;
      LastSetAppend(a, b[..n], f, first);
      assert a + b == a + b[..n] + [b[n]];
      LastSetNext(a + b[..n], b[n], f, first);
    }
  }

  /** The fields are all there is: registers that read alike are the same. */
  lemma FieldsAreEverything(r0: Registers, r1: Registers)
    requires forall f: Field :: Reading(r0, f) == Reading(r1, f)
    ensures r0 == r1
  {
    forall reg | 0 <= reg < REGISTERS ensures r0[reg] == r1[reg] {
      assert Reading(r0, Other(reg)) == Reading(r1, Other(reg));
      if IsShared(reg) {
        SharedByte(r0, r1, reg);
      }
    }
  }

  lemma SharedByte(r0: Registers, r1: Registers, reg: nat)
    requires IsShared(reg) && forall f: Field :: Reading(r0, f) == Reading(r1, f)
    ensures r0[reg] == r1[reg]
  {
    hide Num, High, Coding, Lowest, Third, Rest;
    assert Reading(r0, Bandwidth) == Reading(r1, Bandwidth);
    assert Reading(r0, CodingRate) == Reading(r1, CodingRate);
    assert Reading(r0, HeaderMode) == Reading(r1, HeaderMode);
    assert Reading(r0, SpreadingFactor) == Reading(r1, SpreadingFactor);
    assert Reading(r0, Crc) == Reading(r1, Crc);
    assert Reading(r0, Remainder) == Reading(r1, Remainder);
    assert Reading(r0, Preamble) == Reading(r1, Preamble);
    assert Reading(r0, Carrier) == Reading(r1, Carrier);
    SameConfig(r0[MODEM_CONFIG_1], r1[MODEM_CONFIG_1]);
    SameConfig(r0[MODEM_CONFIG_2], r1[MODEM_CONFIG_2]);
    SameBytes(r0[PREAMBLE_MSB], r0[PREAMBLE_LSB], r1[PREAMBLE_MSB], r1[PREAMBLE_LSB]);
    SameNumbers(r0[FRF_MSB], r0[FRF_MID], r0[FRF_LSB], r1[FRF_MSB], r1[FRF_MID], r1[FRF_LSB]);
  }

  lemma SameNum(a: bv8, b: bv8)
    ensures Num(a) == Num(b) <==> a == b
  {
  }

  lemma SameBytes(a: bv8, b: bv8, c: bv8, d: bv8)
    ensures Num(a) * 256 + Num(b) == Num(c) * 256 + Num(d) ==> a == c && b == d
  {
    hide Num;
    SameNum(a, c);
    SameNum(b, d);
  }

  lemma SameNumbers(a: bv8, b: bv8, c: bv8, d: bv8, e: bv8, f: bv8)
    ensures (Num(a) * 256 + Num(b)) * 256 + Num(c) == (Num(d) * 256 + Num(e)) * 256 + Num(f) ==>
              a == d && b == e && c == f
  {
    hide Num;
    SameNum(c, f);
    SameBytes(a, b, d, e);
  }

  lemma SameConfig(a: bv8, b: bv8)
    requires High(a) == High(b)
    ensures Coding(a) == Coding(b) && Lowest(a) == Lowest(b) ==> a == b
    ensures Third(a) == Third(b) && Rest(a) == Rest(b) ==> a == b
  {
    assert a >> 4 == b >> 4;
  }

  // ----- The registers themselves

  lemma UpdatedIsUnique(r0: Registers, a: Registers, b: Registers, c: Call)
    requires Updated(r0, a, c) && Updated(r0, b, c)
    ensures a == b
  {
    hide Reading, Sets;
    FieldsAreEverything(a, b);
  }

  /** The modes are 0x81, 0x80 and 0x85 in register 0x01, and nothing else is touched. */
  lemma ModeWritten(r0: Registers, r1: Registers, c: Call)
    requires (c.Idle? || c.Sleep? || c.Receive?) && Updated(r0, r1, c)
    ensures r1 == r0[0x01 := if c.Idle? then 0x81 else if c.Sleep? then 0x80 else 0x85]
  {
    var w: bv8 := if c.Idle? then 0x81 else if c.Sleep? then 0x80 else 0x85;
    hide Updated;
    OneWritten(r0, c, 0x01, w);
    UpdatedIsUnique(r0, r1, r0[0x01 := w], c);
  }

  /** The header mode is bit 0 of register 0x1D; implicit headers also need the size in 0x22. */
  lemma HeaderWritten(r0: Registers, r1: Registers, size: Option<int>)
    requires Updated(r0, r1, SetHeader(size))
    ensures size.None? ==> r1 == r0[0x1D := r0[0x1D] & 0xFE]
    ensures size.Some? ==> r1 == r0[0x1D := r0[0x1D] | 0x01][0x22 := r1[0x22]] && r1[0x22] as int == size.value % 256
  {
    hide Updated, Low;
    var w := WithHeader(r0[0x1D], size.Some?);
    if size.None? {
      Config1Written(r0, SetHeader(size), w);
      UpdatedIsUnique(r0, r1, r0[0x1D := w], SetHeader(size));
    } else {
      ImplicitWritten(r0, size.value, w, Low(size.value));
      UpdatedIsUnique(r0, r1, r0[0x1D := w][0x22 := Low(size.value)], SetHeader(size));
    }
  }

  /** The CRC is bit 2 of register 0x1E, and IQ inversion takes registers 0x33 and 0x3B. */
  lemma SwitchesWritten(r0: Registers, r1: Registers, on: bool)
    ensures Updated(r0, r1, SetCrc(on)) ==> r1 == r0[0x1E := if on then r0[0x1E] | 0x04 else r0[0x1E] & 0xFB]
    ensures Updated(r0, r1, SetInvertIq(on)) ==>
              r1 == r0[0x33 := if on then 0x66 else 0x27][0x3B := if on then 0x19 else 0x1D]
  {
    hide Updated;
    var w := WithCrc(r0[0x1E], on);
    CrcWritten(r0, on, w);
    var iq: bv8, iq2: bv8 := if on then 0x66 else 0x27, if on then 0x19 else 0x1D;
    IqWritten(r0, on, iq, iq2);
    if Updated(r0, r1, SetCrc(on)) {
      UpdatedIsUnique(r0, r1, r0[0x1E := w], SetCrc(on));
    }
    if Updated(r0, r1, SetInvertIq(on)) {
      UpdatedIsUnique(r0, r1, r0[0x33 := iq][0x3B := iq2], SetInvertIq(on));
    }
  }

  /** The sync word goes to register 0x39. */
  lemma SyncWordByte(r0: Registers, r1: Registers, n: int)
    requires Updated(r0, r1, SetSyncWord(n))
    ensures r1 == r0[0x39 := r1[0x39]] && r1[0x39] as int == n % 256
  {
    hide Updated, Low;
    var word := Low(n);
    OneWritten(r0, SetSyncWord(n), 0x39, word);
    UpdatedIsUnique(r0, r1, r0[0x39 := word], SetSyncWord(n));
  }

  /** The output power, from 2 to 17, goes to 0x09 with the boost bit. */
  lemma PowerByte(r0: Registers, r1: Registers, n: int)
    requires Updated(r0, r1, SetTxPower(n))
    ensures r1 == r0[0x09 := r1[0x09]]
    ensures r1[0x09] as int == 0x80 + if n < 2 then 0 else if n > 17 then 15 else n - 2
  {
    hide Updated, Low;
    var power := Low(0x80 + Clamp(2, n, 17) - 2);
    OneWritten(r0, SetTxPower(n), 0x09, power);
    UpdatedIsUnique(r0, r1, r0[0x09 := power], SetTxPower(n));
  }

  /** The preamble length goes to registers 0x20 and 0x21, the high byte first. */
  lemma PreambleBytes(r0: Registers, r1: Registers, n: int)
    requires Updated(r0, r1, SetPreamble(n))
    ensures r1 == r0[0x20 := r1[0x20]][0x21 := r1[0x21]]
    ensures r1[0x20] as int == n / 256 % 256 && r1[0x21] as int == n % 256
  {
    hide Updated, Low;
    PreambleWritten(r0, n, Low(n / 256), Low(n));
    UpdatedIsUnique(r0, r1, r0[0x20 := Low(n / 256)][0x21 := Low(n)], SetPreamble(n));
  }

  /** The carrier goes to registers 0x06 to 0x08 in steps of 32 MHz / 2^19, the high byte first. */
  lemma CarrierBytes(r0: Registers, r1: Registers, hz: int)
    requires 0 <= hz < 1024000000 && Updated(r0, r1, SetFrequency(hz))
    ensures r1 == r0[0x06 := r1[0x06]][0x07 := r1[0x07]][0x08 := r1[0x08]]
    ensures (r1[0x06] as int * 256 + r1[0x07] as int) * 256 + r1[0x08] as int == hz * 524288 / 32000000
  {
    hide Updated, Low, Steps;
    var n := Steps(hz);
    StepsBelow(hz);
    var msb, mid, lsb := Low(n / 0x1_0000), Low(n / 0x100), Low(n);
    FrequencyWritten(r0, hz, msb, mid, lsb);
    UpdatedIsUnique(r0, r1, r0[0x06 := msb][0x07 := mid][0x08 := lsb], SetFrequency(hz));
    Bytes3(n);
  }

  lemma StepsBelow(hz: int)
    requires 0 <= hz < 1024000000
    ensures Steps(hz) == hz * 524288 / 32000000 && Steps(hz) % 0x100_0000 == Steps(hz)
  {
    var p := hz * 524288;
    assert p % 0x1_0000_0000_0000_0000 == p && p / 32000000 < 0x100_0000;
  }

  lemma FieldBits(b: bv8)
    ensures (b >> 4) as int == High(b) && ((b >> 1) & 7) as int == Coding(b)
  {
  }

  /** The spreading factor, from 6 to 12, is the high half of register 0x1E, and 0x31 and 0x37 tell 6 from
      the others. */
  lemma FactorBytes(r0: Registers, r1: Registers, sf: int)
    requires Updated(r0, r1, SetSpreadingFactor(sf))
    ensures var s := if sf < 6 then 6 else if sf > 12 then 12 else sf;
            && r1 == r0[0x31 := if s == 6 then 0xC5 else 0xC3][0x37 := if s == 6 then 0x0C else 0x0A][0x1E := r1[0x1E]]
            && (r1[0x1E] >> 4) as int == s && r1[0x1E] & 0x0F == r0[0x1E] & 0x0F
  {
    hide Updated, Low;
    var s := Clamp(6, sf, 12);
    var w := WithFactor(r0[0x1E], Low(s));
    var o: bv8, t: bv8 := if s == 6 then 0xC5 else 0xC3, if s == 6 then 0x0C else 0x0A;
    DetectionValues();
    FactorWritten(r0, sf, o, t, w);
    UpdatedIsUnique(r0, r1, r0[0x31 := o][0x37 := t][0x1E := w], SetSpreadingFactor(sf));
    LowHalfKept(r0[0x1E], Low(s));
  }

  lemma LowHalfKept(b: bv8, n: bv8)
    requires Num(n) < 16
    ensures WithFactor(b, n) & 0x0F == b & 0x0F && WithBandwidth(b, n) & 0x0F == b & 0x0F
  {
  }

  /** The code of a bandwidth. */
  lemma CodeOf(hz: int)
    ensures WidthCode(hz, 0) ==
            if hz <= 7800 then 0 else if hz <= 10400 then 1 else if hz <= 15600 then 2
            else if hz <= 20800 then 3 else if hz <= 31250 then 4 else if hz <= 41700 then 5
            else if hz <= 62500 then 6 else if hz <= 125000 then 7 else if hz <= 250000 then 8 else 9
  {
    hide WidthCode;
    CodeIs(hz, if hz <= 7800 then 0 else if hz <= 10400 then 1 else if hz <= 15600 then 2
               else if hz <= 20800 then 3 else if hz <= 31250 then 4 else if hz <= 41700 then 5
               else if hz <= 62500 then 6 else if hz <= 125000 then 7 else if hz <= 250000 then 8 else 9);
  }

  /** The bandwidth is the high half of register 0x1D. */
  lemma BandwidthBytes(r0: Registers, r1: Registers, hz: int)
    requires Updated(r0, r1, SetBandwidth(hz))
    ensures r1 == r0[0x1D := r1[0x1D]] && r1[0x1D] & 0x0F == r0[0x1D] & 0x0F
    ensures (r1[0x1D] >> 4) as int == WidthCode(hz, 0)
  {
    hide Updated, Low, WidthCode, WithBandwidth, High, Coding, Num;
    CodeAtMost9(hz);
    var code := Low(WidthCode(hz, 0));
    var w := WithBandwidth(r0[0x1D], code);
    Config1Written(r0, SetBandwidth(hz), w);
    UpdatedIsUnique(r0, r1, r0[0x1D := w], SetBandwidth(hz));
    LowHalfKept(r0[0x1D], code);
    FieldBits(w);
  }

  lemma CodeAtMost9(hz: int)
    ensures WidthCode(hz, 0) <= 9
  {
  }

  /** The coding rate's denominator, from 5 to 8, is in bits 1 to 3 of register 0x1D, less four. */
  lemma CodingBytes(r0: Registers, r1: Registers, d: int)
    requires Updated(r0, r1, SetCodingRate(d))
    ensures r1 == r0[0x1D := r1[0x1D]] && r1[0x1D] & 0xF1 == r0[0x1D] & 0xF1
    ensures ((r1[0x1D] >> 1) & 7) as int == if d < 5 then 1 else if d > 8 then 4 else d - 4
  {
    hide Updated, Low, WithCoding, High, Coding, Num;
    var n := Low(Clamp(5, d, 8) - 4);
    var w := WithCoding(r0[0x1D], n);
    Config1Written(r0, SetCodingRate(d), w);
    UpdatedIsUnique(r0, r1, r0[0x1D := w], SetCodingRate(d));
    OthersKept(r0[0x1D], n);
    FieldBits(w);
  }

  lemma OthersKept(b: bv8, n: bv8)
    requires Num(n) < 8
    ensures WithCoding(b, n) & 0xF1 == b & 0xF1
  {
  }

  // ----- What the settings mean

  /** The carrier in steps of 32 MHz / 2^19 that is next below a frequency. */
  predicate IsCarrier(n: int, hz: int) {
    n * 32000000 <= hz * 524288 < (n + 1) * 32000000
  }

  /** Listening on the channel of a band, 600 kHz apart, with beacons of a known size. */
  ghost predicate ReadyForBeacon(r: Registers, size: int, band: nat) {
    && band < 8 && IsCarrier(Reading(r, Carrier), 923300000 + 600000 * band)
    && Reading(r, HeaderMode) == 1 && Reading(r, Other(0x22)) == size % 256
    && Reading(r, Other(0x33)) == 0x27 && Reading(r, Other(0x3B)) == 0x1D
    && Reading(r, SpreadingFactor) == 12 && Reading(r, CodingRate) == 5 && DetectionMatches(r)
    && Reading(r, Other(0x01)) == 0x85
  }

  /** Listening on the first channel with IQ inverted and lengths in the header. */
  ghost predicate ReadyForData(r: Registers, sf: int, cr: int) {
    && IsCarrier(Reading(r, Carrier), 923300000)
    && Reading(r, HeaderMode) == 0
    && Reading(r, Other(0x33)) == 0x66 && Reading(r, Other(0x3B)) == 0x19
    && Reading(r, SpreadingFactor) == (if sf < 6 then 6 else if sf > 12 then 12 else sf)
    && Reading(r, CodingRate) == (if cr < 5 then 5 else if cr > 8 then 8 else cr)
    && DetectionMatches(r)
    && Reading(r, Other(0x01)) == 0x85
  }

  lemma DownstreamInRange(band: nat)
    requires band < 8
    ensures DOWNSTREAM[band] == 923300000 + 600000 * band
    ensures IsCarrier(Steps(DOWNSTREAM[band]) % 0x100_0000, DOWNSTREAM[band])
  {
    FrequencyWithinStep(DOWNSTREAM[band]);
  }

  lemma LastOfSix(a: Call, b: Call, c: Call, d: Call, e: Call, g: Call, f: Field, first: int)
    ensures LastSet([a, b, c, d, e, g], f, first) ==
            OrElse(Sets(g, f), OrElse(Sets(e, f), OrElse(Sets(d, f), OrElse(Sets(c, f),
              OrElse(Sets(b, f), OrElse(Sets(a, f), first))))))
  {
    hide Sets, OrElse;
    assert [a, b] == [a] + [b] && [a, b, c] == [a, b] + [c] && [a, b, c, d] == [a, b, c] + [d];
    LastSetNext([a], b, f, first);
    LastSetNext([a, b], c, f, first);
    LastSetNext([a, b, c], d, f, first);
    assert [a, b, c, d, e] == [a, b, c, d] + [e];
    LastSetNext([a, b, c, d], e, f, first);
    assert [a, b, c, d, e, g] == [a, b, c, d, e] + [g];
    LastSetNext([a, b, c, d, e], g, f, first);
  }

  /** What a field holds after the calls that start listening. */
  lemma ListenSets(hz: int, inv: bool, size: Option<int>, sf: int, cr: int, f: Field, first: int)
    ensures LastSet(ListenCalls(hz, inv, size, sf, cr), f, first) ==
            match f
            case Carrier => Steps(hz) % 0x100_0000
            case HeaderMode => if size.Some? then 1 else 0
            case SpreadingFactor => Clamp(6, sf, 12)
            case CodingRate => Clamp(5, cr, 8)
            case Other(reg) =>
              if reg == OP_MODE then 0x85
              else if reg == PAYLOAD_LENGTH then if size.Some? then size.value % 256 else first
              else if reg == DETECTION_OPTIMIZE then if sf <= 6 then 0xC5 else 0xC3
              else if reg == DETECTION_THRESHOLD then if sf <= 6 then 0x0C else 0x0A
              else if reg == INVERT_IQ then if inv then 0x66 else 0x27
              else if reg == INVERT_IQ2 then if inv then 0x19 else 0x1D
              else first
            case _ => first
  {
    hide LastSet, Steps;
    LastOfSix(SetFrequency(hz), SetInvertIq(inv), SetHeader(size),
              SetSpreadingFactor(sf), SetCodingRate(cr), Receive, f, first);
  }

  lemma BeaconReady(r0: Registers, r1: Registers, size: int, band: nat)
    requires band < 8 && UpdatedAll(r0, r1, BeaconCalls(size, band))
    ensures ReadyForBeacon(r1, size, band)
    ensures Reading(r1, Bandwidth) == Reading(r0, Bandwidth) && Reading(r1, Crc) == Reading(r0, Crc)
    ensures Reading(r1, HeaderMode) == 1
  {
    hide Reading, Steps, LastSet;
    DownstreamInRange(band);
    forall f: Field {
      ListenSets(DOWNSTREAM[band], false, Some(size), 12, 5, f, Reading(r0, f));
    }
  }

  lemma DataReady(r0: Registers, r1: Registers, sf: int, cr: int)
    requires UpdatedAll(r0, r1, UpstreamCalls(sf, cr))
    ensures ReadyForData(r1, sf, cr)
    ensures Reading(r1, Bandwidth) == Reading(r0, Bandwidth) && Reading(r1, Crc) == Reading(r0, Crc)
    ensures Reading(r1, HeaderMode) == 0
  {
    hide Reading, Steps, LastSet;
    DownstreamInRange(0);
    forall f: Field {
      ListenSets(DOWNSTREAM[0], true, None, sf, cr, f, Reading(r0, f));
    }
  }

  /** The detection registers belong to spreading factor 6 or to the others. */
  ghost predicate DetectionMatches(r: Registers) {
    && 6 <= Reading(r, SpreadingFactor) <= 12
    && Reading(r, Other(DETECTION_OPTIMIZE)) == (if Reading(r, SpreadingFactor) == 6 then 0xC5 else 0xC3)
    && Reading(r, Other(DETECTION_THRESHOLD)) == (if Reading(r, SpreadingFactor) == 6 then 0x0C else 0x0A)
  }

  /** They match after any run that sets the spreading factor at all, and stay so after any other. */
  lemma DetectionFollows(r0: Registers, r1: Registers, calls: seq<Call>)
    requires UpdatedAll(r0, r1, calls)
    requires DetectionMatches(r0) || exists c :: c in calls && c.SetSpreadingFactor?
    ensures DetectionMatches(r1)
  {
    FactorSetsAll(calls, Reading(r0, SpreadingFactor), Reading(r0, Other(DETECTION_OPTIMIZE)),
                  Reading(r0, Other(DETECTION_THRESHOLD)));
  }

  /** Either nothing of the three is set, or the last to set one sets all. */
  lemma {:induction false} FactorSetsAll(calls: seq<Call>, s: int, o: int, t: int)
    ensures var (s', o', t') := (LastSet(calls, SpreadingFactor, s), LastSet(calls, Other(DETECTION_OPTIMIZE), o),
                                 LastSet(calls, Other(DETECTION_THRESHOLD), t));
            if exists c :: c in calls && c.SetSpreadingFactor?
            then 6 <= s' <= 12 && o' == (if s' == 6 then 0xC5 else 0xC3) && t' == (if s' == 6 then 0x0C else 0x0A)
            else s' == s && o' == o && t' == t
    decreases |calls|
  {
    if calls != [] {
      var n := |calls| - 1;
      FactorSetsAll(calls[..n], s, o, t);
      assert forall c :: c in calls <==> c in calls[..n] || c == calls[n];
    }
  }

  /** The carrier registers hold the frequency to within a step of 61 Hz exactly when it is not
      negative and below 1024 MHz. */
  lemma FrequencyWithinStep(hz: int)
    requires -0x8000_0000 <= hz < 0x8000_0000
    ensures var n := Steps(hz) % 0x100_0000;
            IsCarrier(n, hz) <==> 0 <= hz < 1024000000
  {
    var n := Steps(hz) % 0x100_0000;
    if hz >= 0 {
      var q := hz * SHIFT / STEP;
      assert Steps(hz) == q;
      assert q * STEP <= hz * SHIFT < (q + 1) * STEP;
      if hz < 1024000000 {
        assert n == q;
      } else {
        assert n + 1 <= q;
      }
    }
  }
}
