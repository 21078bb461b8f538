/**
 The packet filter of the monitor interface: the program as it is loaded, an interpreter for the
 instructions it uses, and the packets it lets through.
 */
module Bpf {
  import opened Bytes

  const WORD := 0x1_0000_0000

  datatype Raw = Raw(op: nat, jt: nat, jf: nat, k: nat)

  /** Bitwise or. */
  function Or(a: nat, b: nat): nat
    decreases a + b
  {
    if a == 0 || b == 0 then a + b
    else 2 * Or(a / 2, b / 2) + if a % 2 == 1 || b % 2 == 1 then 1 else 0
  }

  function Word(pkt: Octets, at: nat): nat
    requires at + 4 <= |pkt|
  {
    var b0: int, b1: int, b2: int, b3: int := pkt[at], pkt[at + 1], pkt[at + 2], pkt[at + 3];
    ((b0 * 256 + b1) * 256 + b2) * 256 + b3
  }

  /** Runs `prog` from `pc` with accumulator `a` and index `x`; the result is how many bytes of the
      packet to keep. A load outside the packet, an unknown instruction or the end of the program
      rejects it. */
  function Run(prog: seq<Raw>, pkt: Octets, pc: nat, a: nat, x: nat): nat
    decreases |prog| - pc
  {
    if pc >= |prog| then 0
    else
      var i := prog[pc];
      if i.op == 0x30 then if i.k < |pkt| then Run(prog, pkt, pc + 1, pkt[i.k], x) else 0
      else if i.op == 0x40 then if x + i.k + 4 <= |pkt| then Run(prog, pkt, pc + 1, Word(pkt, x + i.k), x) else 0
      else if i.op == 0x64 then Run(prog, pkt, pc + 1, a * Pow2(i.k) % WORD, x)
      else if i.op == 0x4C then Run(prog, pkt, pc + 1, Or(a, x), x)
      else if i.op == 0x07 then Run(prog, pkt, pc + 1, a, a)
      else if i.op == 0x15 then Run(prog, pkt, pc + 1 + if a == i.k then i.jt else i.jf, a, x)
      else if i.op == 6 then i.k
      else 0
  }

  function Pow2(n: nat): (p: nat)
    ensures p >= 1
  {
    if n == 0 then 1 else 2 * Pow2(n - 1)
  }

  const FILTER: seq<Raw> := [
    Raw(0x30, 0, 0, 3),
    Raw(0x64, 0, 0, 8),
    Raw(0x07, 0, 0, 0),
    Raw(0x30, 0, 0, 2),
    Raw(0x4C, 0, 0, 2),
    Raw(0x07, 0, 0, 0),
    Raw(0x40, 0, 0, 16),
    Raw(0x15, 0, 1, 0x506F9A01),
    Raw(6, 0, 0, 0x00040000),
    Raw(6, 0, 0, 0)]

  /** Length of the radiotap header: bytes 2 and 3, little-endian. */
  function RadiotapLength(pkt: Octets): nat
    requires |pkt| >= 4
  {
    var lo: int, hi: int := pkt[2], pkt[3];
    lo + 256 * hi
  }

  /** A number below a power of two and a multiple of it have no bit in common. */
  lemma {:induction false} OrDisjoint(q: nat, r: nat, n: nat)
    requires r < Pow2(n)
    ensures Or(r, q * Pow2(n)) == r + q * Pow2(n)
    decreases n
  {
    var p := Pow2(n);
    if n > 0 && r > 0 && q > 0 {
      var h := Pow2(n - 1);
      assert q * p == 2 * (q * h);
      OrDisjoint(q, r / 2, n - 1);
    } else {
      assert q == 0 ==> q * p == 0;
      assert n == 0 ==> r == 0;
    }
  }

  lemma HeaderLoaded(pkt: Octets)
    requires |pkt| >= 4
    ensures var hi: int := pkt[3];
            Or(pkt[2], hi * Pow2(8) % WORD) == RadiotapLength(pkt)
  {
    var hi: int := pkt[3];
    Pow2Of8();
    var shifted := hi * Pow2(8);
    assert shifted == hi * 256 && shifted % WORD == shifted;
    OrDisjoint(hi, pkt[2], 8);
  }

  lemma Pow2Of8()
    ensures Pow2(8) == 256
  {
    assert Pow2(4) == 16;
    assert Pow2(6) == 64;
  }

  /** The first six instructions leave the header length in both registers. */
  lemma LoadsHeader(pkt: Octets, a: nat, x: nat)
    ensures Run(FILTER, pkt, 0, a, x) ==
            if |pkt| < 4 then 0 else Run(FILTER, pkt, 6, RadiotapLength(pkt), RadiotapLength(pkt))
  {
    if |pkt| >= 4 {
      var hi: int := pkt[3];
      var shifted := hi * Pow2(8) % WORD;
      assert Run(FILTER, pkt, 0, a, x) == Run(FILTER, pkt, 1, hi, x);
      assert Run(FILTER, pkt, 1, hi, x) == Run(FILTER, pkt, 2, shifted, x);
      assert Run(FILTER, pkt, 2, shifted, x) == Run(FILTER, pkt, 3, shifted, shifted);
      assert Run(FILTER, pkt, 3, shifted, shifted) == Run(FILTER, pkt, 4, pkt[2], shifted);
      HeaderLoaded(pkt);
      var h := RadiotapLength(pkt);
      assert Run(FILTER, pkt, 4, pkt[2], shifted) == Run(FILTER, pkt, 5, h, shifted);
      assert Run(FILTER, pkt, 5, h, shifted) == Run(FILTER, pkt, 6, h, h);
    }
  }

  lemma WordIs(pkt: Octets, at: nat)
    requires at + 4 <= |pkt|
    ensures Word(pkt, at) == 0x506F9A01 <==> pkt[at..at + 4] == [0x50, 0x6F, 0x9A, 0x01]
  {
    var s := pkt[at..at + 4];
    assert s == [pkt[at], pkt[at + 1], pkt[at + 2], pkt[at + 3]];
  }

  predicate IsNan(pkt: Octets) {
    && |pkt| >= 4
    && var lo: int, hi: int := pkt[2], pkt[3];
       var bssid := lo + 256 * hi + 16;
       bssid + 4 <= |pkt| && pkt[bssid..bssid + 4] == [0x50, 0x6F, 0x9A, 0x01]
  }

  /** The last four instructions compare the word sixteen bytes behind the header. */
  lemma ComparesWord(pkt: Octets, h: nat)
    ensures Run(FILTER, pkt, 6, h, h) ==
            if h + 20 <= |pkt| && pkt[h + 16..h + 20] == [0x50, 0x6F, 0x9A, 0x01] then 0x40000 else 0
  {
    if h + 20 <= |pkt| {
      var w := Word(pkt, h + 16);
      WordIs(pkt, h + 16);
      hide Word;
      assert Run(FILTER, pkt, 6, h, h) == Run(FILTER, pkt, 7, w, h);
      assert Run(FILTER, pkt, 7, w, h) == Run(FILTER, pkt, if w == 0x506F9A01 then 8 else 9, w, h);
      assert Run(FILTER, pkt, 8, w, h) == 0x40000 && Run(FILTER, pkt, 9, w, h) == 0;
    }
  }

  /** The filter keeps 0x40000 bytes of a packet when its radiotap header, of the length that bytes 2 and 3
      give, low byte first, is followed by at least twenty bytes and the BSSID field, sixteen bytes
      behind it, starts with the NAN prefix; and none of any other. */
  lemma FilterAccepts(pkt: Octets)
    ensures Run(FILTER, pkt, 0, 0, 0) == if IsNan(pkt) then 0x40000 else 0
  {
    hide Run;
    LoadsHeader(pkt, 0, 0);
    if |pkt| >= 4 {
      ComparesWord(pkt, RadiotapLength(pkt));
    }
  }
}
