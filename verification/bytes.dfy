/** Octets, and the option type the other modules share. */
module Bytes {

  type Byte = i: int | 0 <= i < 256

  /** Go strings and byte slices alike: what the code handles is always bytes. */
  type Octets = seq<Byte>

  datatype Option<+T> = None | Some(value: T)

  /** The bytes of an ASCII literal. */
  function Ascii(s: string): (r: Octets)
    requires forall i :: 0 <= i < |s| ==> s[i] < 128 as char
    ensures |r| == |s|
    ensures forall i :: 0 <= i < |s| ==> r[i] == s[i] as int
  {
    seq(|s|, i requires 0 <= i < |s| => s[i] as int)
  }

  /** `part` stands in `s` at offset `off`. */
  ghost predicate At(s: Octets, off: nat, part: Octets) {
    off + |part| <= |s| && s[off..off + |part|] == part
  }

  lemma AtParts(s: Octets, off: nat, a: Octets, b: Octets)
    ensures At(s, off, a + b) <==> At(s, off, a) && At(s, off + |a|, b)
  {
    if At(s, off, a + b) {
      var w := s[off..off + |a + b|];
      assert forall i :: 0 <= i < |a| ==> s[off + i] == w[i] == a[i];
      assert forall i :: 0 <= i < |b| ==> s[off + |a| + i] == w[|a| + i] == b[i];
    }
  }
}
