/**
 Type-length-value elements, in the two formats of the Wi-Fi code: NAN attributes with 16-bit
 little-endian lengths and 802.11 information elements with 8-bit ones.
 */
module Tlv {
  import opened Bytes

  datatype IE = IE(id: Byte, data: Octets)

  datatype Format = Wide | Narrow {
    function HeaderLen(): nat {
      if Wide? then 3 else 2
    }

    /** The length a header states. */
    function Len(b: Octets): nat
      requires |b| >= HeaderLen()
    {
      var lo: int, hi: int := b[1], if Wide? then b[2] else 0;
      lo + 256 * hi
    }
  }

  predicate Fits(f: Format, ie: IE) {
    |ie.data| < if f.Wide? then 65536 else 256
  }

  predicate Encodable(f: Format, ies: seq<IE>) {
    forall i :: 0 <= i < |ies| ==> Fits(f, ies[i])
  }

  function Header(f: Format, id: Byte, n: nat): Octets
    requires n < if f.Wide? then 65536 else 256
  {
    if f.Wide? then [id, n % 256, n / 256] else [id, n]
  }

  function Encode(f: Format, ies: seq<IE>): Octets
    requires Encodable(f, ies)
  {
    if ies == [] then []
    else Header(f, ies[0].id, |ies[0].data|) + ies[0].data + Encode(f, ies[1..])
  }

  function Onto(ies: seq<IE>, rest: Option<seq<IE>>): Option<seq<IE>> {
    match rest case None => None case Some(more) => Some(ies + more)
  }

  predicate HasElement(f: Format, b: Octets) {
    |b| >= f.HeaderLen() && f.HeaderLen() + f.Len(b) <= |b|
  }

  function First(f: Format, b: Octets): IE
    requires HasElement(f, b)
  {
    IE(b[0], b[f.HeaderLen()..f.HeaderLen() + f.Len(b)])
  }

  function After(f: Format, b: Octets): Octets
    requires HasElement(f, b)
  {
    b[f.HeaderLen() + f.Len(b)..]
  }

  function Decode(f: Format, b: Octets): Option<seq<IE>>
    decreases |b|
  {
    if b == [] then Some([])
    else if !HasElement(f, b) then None
    else Onto([First(f, b)], Decode(f, After(f, b)))
  }

  // ----- The two parsers

  method ParseATTs(b: Octets) returns (r: Option<seq<IE>>)
    ensures r == Decode(Wide, b)
  {
    var ies: seq<IE> := [];
    var i: nat := 0;
    Starts(Wide, b);
    while true
      invariant Parsing(Wide, b, i, ies)
      decreases |b| - i
    {
      if |b[i..]| == 0 {
        Ends(Wide, b, i, ies);
        break;
      }
      ghost var at := i;
      if |b[i..]| < 3 {
        Stops(Wide, b, at, ies);
        return None;
      }
      var id := b[i];
      i := i + 1;
      var l: int := b[i];
      i := i + 1;
      var high: int := b[i];
      l := l + 256 * high;
      i := i + 1;
      assert l == Wide.Len(b[at..]) && i == at + Wide.HeaderLen();
      if |b[i..]| < l {
        Stops(Wide, b, at, ies);
        return None;
      }
      Takes(Wide, b, at, ies);
      ies := ies + [IE(id, b[i..i + l])];
      i := i + l;
    }
    return Some(ies);
  }

  method ParseIEs(b: Octets) returns (r: Option<seq<IE>>)
    ensures r == Decode(Narrow, b)
  {
    var ies: seq<IE> := [];
    var i: nat := 0;
    Starts(Narrow, b);
    while true
      invariant Parsing(Narrow, b, i, ies)
      decreases |b| - i
    {
      if |b[i..]| == 0 {
        Ends(Narrow, b, i, ies);
        break;
      }
      ghost var at := i;
      if |b[i..]| < 2 {
        Stops(Narrow, b, at, ies);
        return None;
      }
      var id := b[i];
      i := i + 1;
      var l: int := b[i];
      i := i + 1;
      assert l == Narrow.Len(b[at..]) && i == at + Narrow.HeaderLen();
      if |b[i..]| < l {
        Stops(Narrow, b, at, ies);
        return None;
      }
      Takes(Narrow, b, at, ies);
      ies := ies + [IE(id, b[i..i + l])];
      i := i + l;
    }
    return Some(ies);
  }

  lemma OntoNothing(rest: Option<seq<IE>>)
    ensures Onto([], rest) == rest
  {
    if rest.Some? {
      assert [] + rest.value == rest.value;
    }
  }

  lemma OntoOnto(a: seq<IE>, b: seq<IE>, rest: Option<seq<IE>>)
    ensures Onto(a, Onto(b, rest)) == Onto(a + b, rest)
  {
    if rest.Some? {
      assert a + (b + rest.value) == a + b + rest.value;
    }
  }

  /** The parser has taken `ies` and looks at `at`. */
  ghost predicate Parsing(f: Format, b: Octets, at: nat, ies: seq<IE>) {
    at <= |b| && Decode(f, b) == Onto(ies, Decode(f, b[at..]))
  }

  lemma Starts(f: Format, b: Octets)
    ensures Parsing(f, b, 0, [])
  {
    OntoNothing(Decode(f, b));
    assert b[0..] == b;
  }

  lemma Ends(f: Format, b: Octets, at: nat, ies: seq<IE>)
    requires Parsing(f, b, at, ies) && at == |b|
    ensures Decode(f, b) == Some(ies)
  {
    assert ies + [] == ies;
  }

  lemma Stops(f: Format, b: Octets, at: nat, ies: seq<IE>)
    requires Parsing(f, b, at, ies) && at < |b| && !HasElement(f, b[at..])
    ensures Decode(f, b) == None
  {
  }

  lemma Takes(f: Format, b: Octets, at: nat, ies: seq<IE>)
    requires Parsing(f, b, at, ies) && HasElement(f, b[at..])
    ensures var from := at + f.HeaderLen();
            var to := from + f.Len(b[at..]);
            to <= |b| && Parsing(f, b, to, ies + [IE(b[at], b[from..to])])
  {
    var from := at + f.HeaderLen();
    var to := from + f.Len(b[at..]);
    assert First(f, b[at..]) == IE(b[at], b[from..to]);
    assert After(f, b[at..]) == b[to..];
    OntoOnto(ies, [IE(b[at], b[from..to])], Decode(f, b[to..]));
  }

  // ----- Encoding and decoding are inverse

  lemma DecodeOne(f: Format, ie: IE, tail: Octets)
    requires Fits(f, ie)
    ensures var b := Header(f, ie.id, |ie.data|) + ie.data + tail;
            HasElement(f, b) && First(f, b) == ie && After(f, b) == tail
  {
    var b := Header(f, ie.id, |ie.data|) + ie.data + tail;
    assert f.Len(b) == |ie.data|;
  }

  lemma DecodeCons(f: Format, ie: IE, tail: Octets)
    requires Fits(f, ie)
    ensures Decode(f, Header(f, ie.id, |ie.data|) + ie.data + tail) == Onto([ie], Decode(f, tail))
  {
    DecodeOne(f, ie, tail);
  }

  lemma DecodeSingle(f: Format, ie: IE)
    requires Fits(f, ie)
    ensures Decode(f, Header(f, ie.id, |ie.data|) + ie.data) == Some([ie])
  {
    var b := Header(f, ie.id, |ie.data|) + ie.data;
    assert b + [] == b;
    DecodeCons(f, ie, []);
    assert Decode(f, []) == Some([]);
    assert [ie] + [] == [ie];
  }

  /** Elements come back one by one, whatever bytes are behind them. */
  lemma {:induction false} DecodeEncodeThen(f: Format, ies: seq<IE>, tail: Octets)
    requires Encodable(f, ies)
    ensures Decode(f, Encode(f, ies) + tail) == Onto(ies, Decode(f, tail))
    decreases |ies|
  {
    if ies == [] {
      assert Encode(f, ies) + tail == tail;
      OntoNothing(Decode(f, tail));
    } else {
      var ie, rest := ies[0], Encode(f, ies[1..]) + tail;
      var b := Header(f, ie.id, |ie.data|) + ie.data + rest;
      assert Encode(f, ies) + tail == b;
      DecodeCons(f, ie, rest);
      DecodeEncodeThen(f, ies[1..], tail);
      OntoOnto([ie], ies[1..], Decode(f, tail));
      assert [ie] + ies[1..] == ies;
    }
  }

  /** Parsing any encoded list returns the list. */
  lemma DecodeOfEncode(f: Format, ies: seq<IE>)
    requires Encodable(f, ies)
    ensures Decode(f, Encode(f, ies)) == Some(ies)
  {
    DecodeEncodeThen(f, ies, []);
    assert Encode(f, ies) + [] == Encode(f, ies) && ies + [] == ies;
  }

  lemma EncodeFirst(f: Format, b: Octets)
    requires HasElement(f, b)
    ensures Fits(f, First(f, b))
    ensures Header(f, b[0], |First(f, b).data|) + First(f, b).data + After(f, b) == b
  {
    var h, l := f.HeaderLen(), f.Len(b);
    assert b == b[..h] + b[h..h + l] + b[h + l..];
    var lo: int := b[1];
    assert f.Wide? ==> l % 256 == lo && l / 256 == b[2];
    assert Header(f, b[0], l) == b[..h];
  }

  /** Whatever parses re-encodes to the same bytes. */
  lemma {:induction false} EncodeOfDecode(f: Format, b: Octets)
    requires Decode(f, b).Some?
    ensures Encodable(f, Decode(f, b).value) && Encode(f, Decode(f, b).value) == b
    decreases |b|
  {
    if b != [] {
      EncodeFirst(f, b);
      EncodeOfDecode(f, After(f, b));
      var rest := Decode(f, After(f, b)).value;
      assert ([First(f, b)] + rest)[1..] == rest;
    }
  }

  /** The bytes of an attribute: its id, a length with the low byte first, and as much content. With less
      of it, or less than the three bytes in front, there is no attribute. */
  lemma AttributeBytes(id: Byte, lo: Byte, hi: Byte, data: Octets, tail: Octets)
    ensures var n := (lo as int) + 256 * (hi as int);
            && (|data| == n ==>
                  Decode(Wide, [id, lo, hi] + data + tail) == Onto([IE(id, data)], Decode(Wide, tail)))
            && (|data| < n ==> Decode(Wide, [id, lo, hi] + data) == None)
    ensures Decode(Wide, []) == Some([]) && Decode(Wide, [id]) == None && Decode(Wide, [id, lo]) == None
  {
    var n := (lo as int) + 256 * (hi as int);
    if |data| == n {
      assert Header(Wide, id, n) == [id, lo, hi];
      DecodeCons(Wide, IE(id, data), tail);
    } else if |data| < n {
      var b := [id, lo, hi] + data;
      assert Wide.Len(b) == n;
    }
  }

  /** The same of an information element, whose length is a single byte. */
  lemma ElementBytes(id: Byte, n: Byte, data: Octets, tail: Octets)
    ensures |data| == n ==> Decode(Narrow, [id, n] + data + tail) == Onto([IE(id, data)], Decode(Narrow, tail))
    ensures |data| < n ==> Decode(Narrow, [id, n] + data) == None
    ensures Decode(Narrow, []) == Some([]) && Decode(Narrow, [id]) == None
  {
    if |data| == n {
      assert Header(Narrow, id, n) == [id, n];
      DecodeCons(Narrow, IE(id, data), tail);
    } else if |data| < n {
      var b := [id, n] + data;
      assert Narrow.Len(b) == n;
    }
  }

  /** Parsing fails exactly on the inputs that are no concatenation of complete elements. */
  lemma FailsExactly(f: Format, b: Octets)
    ensures Decode(f, b).None? <==> forall ies :: Encodable(f, ies) ==> Encode(f, ies) != b
  {
    if Decode(f, b).Some? {
      EncodeOfDecode(f, b);
    }
    forall ies | Encodable(f, ies) && Encode(f, ies) == b ensures Decode(f, b).Some? {
      DecodeOfEncode(f, ies);
    }
  }
}
