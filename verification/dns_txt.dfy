/**
 The TXT record of the DNS-SD codec: a packer that writes length-prefixed "key=value" strings
 (RFC 6763 sections 6.1 and 6.3) in whatever order a Go map is enumerated, and a parser that
 works on a slice, so that a read past the slice's length can still fall inside its capacity.
 */
module DnsTxt {
  import opened Bytes

  const EQUALS: Byte := 0x3d

  type Meta = map<Octets, Octets>

  /** A Go byte slice: the bytes up to its capacity, and its length. */
  datatype Slice = Slice(data: Octets, len: nat) {
    ghost predicate Valid() {
      len <= |data|
    }
  }

  // ----- strings.Split on "="

  function Find(s: Octets): (i: nat)
    ensures i <= |s| && EQUALS !in s[..i]
    ensures i < |s| ==> s[i] == EQUALS
  {
    if s == [] || s[0] == EQUALS then 0
    else
      var i := Find(s[1..]);
      assert s[..1 + i] == [s[0]] + s[1..][..i];
      1 + i
  }

  function Split(s: Octets): (parts: seq<Octets>)
    ensures |parts| >= 1
    decreases |s|
  {
    var i := Find(s);
    if i == |s| then [s] else [s[..i]] + Split(s[i + 1..])
  }

  // ----- What a slice parses to

  /** A record's contribution: nothing unless it splits into exactly a key and a value. */
  function Entry(kv: Octets): Meta {
    var parts := Split(kv);
    if |parts| == 2 then map[parts[0] := parts[1]] else map[]
  }

  function Entries(records: seq<Octets>): Meta {
    if records == [] then map[]
    else Entries(records[..|records| - 1]) + Entry(records[|records| - 1])
  }

  predicate HasRecord(w: Octets) {
    w != [] && w[0] != 0 && 1 + w[0] <= |w|
  }

  /** The complete records at the front of a window, and what is left behind them. */
  function Complete(w: Octets): seq<Octets> {
    if HasRecord(w) then [w[1..1 + w[0]]] + Complete(w[1 + w[0]..]) else []
  }

  function Rest(w: Octets): Octets {
    if HasRecord(w) then Rest(w[1 + w[0]..]) else w
  }

  /** The last record lacks exactly its last byte: the length test lets this one through. */
  predicate OneShort(rest: Octets) {
    rest != [] && rest[0] != 0 && rest[0] == |rest|
  }

  /** How a parse ends: a record one byte short takes the byte behind the slice if the capacity
      has one, and is the run-time panic (`None`) if not. */
  function Closing(complete: Meta, rest: Octets, behind: Octets): Option<Meta> {
    if !OneShort(rest) then Some(complete)
    else if behind == [] then None
    else Some(complete + Entry(rest[1..] + [behind[0]]))
  }

  function ParseTxt(d: Slice): Option<Meta>
    requires d.Valid()
  {
    var w := d.data[..d.len];
    Closing(Entries(Complete(w)), Rest(w), d.data[d.len..])
  }

  method AddRecord(res0: Meta, kv: Octets) returns (res: Meta)
    ensures res == res0 + Entry(kv)
  {
    res := res0;
    var kvp := Split(kv);
    if |kvp| == 2 {
      res := res[kvp[0] := kvp[1]];
    }
  }

  /** The parser at offset `off` with `res` so far. */
  function ParseFrom(d: Slice, off: nat, res: Meta): Option<Meta>
    requires d.Valid()
    decreases d.len - off
  {
    if off >= d.len then Some(res)
    else
      var slen: int := d.data[off];
      if slen == 0 || off + slen > d.len then Some(res)
      else if off + 1 + slen > |d.data| then None
      else ParseFrom(d, off + 1 + slen, res + Entry(d.data[off + 1..off + 1 + slen]))
  }

  method ParseDns(d: Slice) returns (r: Option<Meta>)
    requires d.Valid()
    ensures r == ParseTxt(d)
  {
    var off: nat := 0;
    var res: Meta := map[];
    while true
      invariant ParseFrom(d, off, res) == ParseFrom(d, 0, map[])
      decreases d.len - off
    {
      if off >= d.len {
        break;
      }
      var slen: int := d.data[off];
      // The test comes before the length byte is skipped, so it is one too weak.
      if slen == 0 || off + slen > d.len {
        break;
      }
      off := off + 1;
      if off + slen > |d.data| {
        ParseFromIsParse(d);
        return None;
      }
      res := AddRecord(res, d.data[off..off + slen]);
      off := off + slen;
    }
    ParseFromIsParse(d);
    return Some(res);
  }

  lemma ParseFromIsParse(d: Slice)
    requires d.Valid()
    ensures ParseFrom(d, 0, map[]) == ParseTxt(d)
  {
    var w := d.data[..d.len];
    ParseFromCloses(d, w, 0, map[]);
    assert w[0..] == w;
    OverlayNothing(Entries(Complete(w)));
  }

  /** From any offset, the parser adds the complete records ahead and then closes. */
  lemma {:induction false} ParseFromCloses(d: Slice, w: Octets, off: nat, res: Meta)
    requires d.Valid() && w == d.data[..d.len] && off <= |w|
    ensures ParseFrom(d, off, res) == Closing(res + Entries(Complete(w[off..])), Rest(w[off..]), d.data[d.len..])
    decreases |w| - off
  {
    if HasRecord(w[off..]) {
      var next := off + 1 + w[off];
      var kv := w[off + 1..next];
      ParseFromStep(d, w, off, res);
      ParseFromCloses(d, w, next, res + Entry(kv));
      CompleteStep(w, off);
      EntriesCons(res, kv, Complete(w[next..]));
    } else {
      ParseFromStops(d, w, off, res);
    }
  }

  lemma ParseFromStep(d: Slice, w: Octets, off: nat, res: Meta)
    requires d.Valid() && w == d.data[..d.len] && off <= |w| && HasRecord(w[off..])
    ensures ParseFrom(d, off, res) == ParseFrom(d, off + 1 + w[off], res + Entry(w[off + 1..off + 1 + w[off]]))
  {
    assert w[off..][0] == d.data[off] && |w[off..]| == d.len - off;
    assert w[off + 1..off + 1 + w[off]] == d.data[off + 1..off + 1 + w[off]];
  }

  lemma CompleteStep(w: Octets, off: nat)
    requires off <= |w| && HasRecord(w[off..])
    ensures var next := off + 1 + w[off];
            && Complete(w[off..]) == [w[off + 1..next]] + Complete(w[next..])
            && Rest(w[off..]) == Rest(w[next..])
  {
    assert w[off..][1..1 + w[off]] == w[off + 1..off + 1 + w[off]];
    assert w[off..][1 + w[off]..] == w[off + 1 + w[off]..];
  }

  lemma ParseFromStops(d: Slice, w: Octets, off: nat, res: Meta)
    requires d.Valid() && w == d.data[..d.len] && off <= |w| && !HasRecord(w[off..])
    ensures ParseFrom(d, off, res) == Closing(res, w[off..], d.data[d.len..])
    ensures res + map[] == res
  {
    var ahead := w[off..];
    assert ahead != [] ==> ahead[0] == d.data[off];
    if OneShort(ahead) && d.len < |d.data| {
      assert ahead[1..] + [d.data[d.len..][0]] == d.data[off + 1..d.len + 1];
    }
  }

  lemma EntriesCons(res: Meta, kv: Octets, records: seq<Octets>)
    ensures res + Entries([kv] + records) == res + Entry(kv) + Entries(records)
  {
    EntriesAppend([kv], records);
    EntriesOne(kv);
    OverlayAssociates(res, Entry(kv), Entries(records));
  }

  lemma EntriesOne(kv: Octets)
    ensures Entries([kv]) == Entry(kv)
  {
    assert [kv][..0] == [];
    OverlayNothing(Entry(kv));
  }

  lemma OverlayNothing(m: Meta)
    ensures map[] + m == m && m + map[] == m
  {
  }

  // ----- The packer

  /** `bytes.Buffer`, as far as the packers use it. */
  class Buffer {
    var data: Octets

    constructor ()
      ensures data == []
    {
      data := [];
    }

    method WriteByte(b: Byte)
      modifies this
      ensures data == old(data) + [b]
    {
      data := data + [b];
    }

    method Write(p: Octets)
      modifies this
      ensures data == old(data) + p
    {
      data := data + p;
    }
  }

  /** `order` is one order in which the map's keys may come out. */
  ghost predicate Enumerates(order: seq<Octets>, rec: Meta) {
    forall k :: k in order <==> k in rec
  }

  function Record(k: Octets, v: Octets): Octets {
    k + [EQUALS] + v
  }

  /** The length goes out as one byte, so it wraps at 256. */
  function Packed(record: Octets): Octets {
    [|record| % 256] + record
  }

  function TxtBytes(rec: Meta, order: seq<Octets>): Octets
    requires forall k :: k in order ==> k in rec
  {
    if order == [] then []
    else
      var k := order[|order| - 1];
      TxtBytes(rec, order[..|order| - 1]) + Packed(Record(k, rec[k]))
  }

  method PackTxtBytes(bb: Buffer, rec: Meta, order: seq<Octets>)
    requires Enumerates(order, rec)
    modifies bb
    ensures bb.data == old(bb.data) + TxtBytes(rec, order)
  {
    for i := 0 to |order|
      invariant bb.data == old(bb.data) + TxtBytes(rec, order[..i])
    {
      var k := order[i];
      var record := k + [EQUALS] + rec[k];
      bb.WriteByte(|record| % 256);
      bb.Write(record);
      assert order[..i + 1][..i] == order[..i];
    }
    assert order[..|order|] == order;
  }

  // ----- What survives a round trip

  predicate Clean(s: Octets) {
    EQUALS !in s
  }

  /** The record fits the length byte. */
  predicate Fits(k: Octets, v: Octets) {
    |k| + 1 + |v| <= 255
  }

  ghost predicate AllFit(rec: Meta) {
    forall k :: k in rec ==> Fits(k, rec[k])
  }

  lemma {:induction false} FindAt(k: Octets, v: Octets)
    requires Clean(k)
    ensures Find(Record(k, v)) == |k|
  {
    if k != [] {
      assert k[0] in k;
      assert Record(k, v)[1..] == Record(k[1..], v);
      FindAt(k[1..], v);
    }
  }

  lemma SplitSingle(s: Octets)
    ensures |Split(s)| == 1 <==> Clean(s)
    ensures Clean(s) ==> Split(s) == [s]
  {
    if Find(s) == |s| {
      assert s[..|s|] == s;
    }
  }

  lemma SplitRecord(k: Octets, v: Octets)
    requires Clean(k)
    ensures Split(Record(k, v)) == [k] + Split(v)
  {
    FindAt(k, v);
    assert Record(k, v)[..|k|] == k && Record(k, v)[|k| + 1..] == v;
  }

  /** A record is read as its own key and value exactly when neither holds an equals sign, and as
      nothing otherwise. */
  lemma EntryOfRecord(k: Octets, v: Octets)
    ensures Entry(Record(k, v)) == if Clean(k) && Clean(v) then map[k := v] else map[]
  {
    SplitSingle(v);
    if Clean(k) {
      SplitRecord(k, v);
    } else {
      var i := Find(k);
      var head, tail := k[..i], k[i + 1..];
      assert i < |k| by { SplitSingle(k); }
      assert Record(k, v) == Record(head, Record(tail, v));
      SplitRecord(head, Record(tail, v));
      assert Record(tail, v)[|tail|] == EQUALS;
      SplitSingle(Record(tail, v));
    }
  }

  /** Whatever is parsed, each key and value is clean and together they fit one record. */
  lemma EntryIsClean(kv: Octets)
    ensures forall k :: k in Entry(kv) ==> Clean(k) && Clean(Entry(kv)[k]) && |k| + 1 + |Entry(kv)[k]| == |kv|
  {
    var i := Find(kv);
    if i < |kv| {
      SplitSingle(kv[i + 1..]);
    }
  }

  ghost predicate AllClean(m: Meta) {
    forall k :: k in m ==> Clean(k) && Clean(m[k]) && Fits(k, m[k])
  }

  lemma {:induction false} EntriesAreClean(records: seq<Octets>)
    requires forall r :: r in records ==> |r| <= 255
    ensures AllClean(Entries(records))
  {
    if records != [] {
      EntriesAreClean(records[..|records| - 1]);
      EntryIsClean(records[|records| - 1]);
    }
  }

  lemma {:induction false} CompleteFit(w: Octets)
    ensures forall r :: r in Complete(w) ==> |r| <= 255
    decreases |w|
  {
    if HasRecord(w) {
      CompleteFit(w[1 + w[0]..]);
    }
  }

  lemma {:induction false} RestLength(w: Octets)
    ensures |Rest(w)| <= |w|
    decreases |w|
  {
    if HasRecord(w) {
      RestLength(w[1 + w[0]..]);
    }
  }

  lemma ParsedIsClean(d: Slice)
    requires d.Valid() && ParseTxt(d).Some?
    ensures AllClean(ParseTxt(d).value)
  {
    var w := d.data[..d.len];
    CompleteFit(w);
    EntriesAreClean(Complete(w));
    if OneShort(Rest(w)) {
      EntryIsClean(Rest(w)[1..] + [d.data[d.len..][0]]);
    }
  }

  function Records(rec: Meta, order: seq<Octets>): seq<Octets>
    requires forall k :: k in order ==> k in rec
  {
    if order == [] then []
    else Records(rec, order[..|order| - 1]) + [Record(order[|order| - 1], rec[order[|order| - 1]])]
  }

  /** Packed records are read first, whatever comes behind them. */
  lemma {:induction false} CompleteOfPacked(rec: Meta, order: seq<Octets>, tail: Octets)
    requires AllFit(rec) && forall k :: k in order ==> k in rec
    ensures Complete(TxtBytes(rec, order) + tail) == Records(rec, order) + Complete(tail)
    ensures Rest(TxtBytes(rec, order) + tail) == Rest(tail)
    decreases |order|
  {
    if order == [] {
      assert TxtBytes(rec, order) + tail == tail;
    } else {
      var k := order[|order| - 1];
      var r, init := Record(k, rec[k]), order[..|order| - 1];
      assert TxtBytes(rec, order) + tail == TxtBytes(rec, init) + (Packed(r) + tail);
      CompleteOfPacked(rec, init, Packed(r) + tail);
      CompleteOfOne(r, tail);
      assert Records(rec, init) + ([r] + Complete(tail)) == Records(rec, order) + Complete(tail);
    }
  }

  lemma CompleteOfOne(r: Octets, tail: Octets)
    requires 1 <= |r| <= 255
    ensures Complete(Packed(r) + tail) == [r] + Complete(tail) && Rest(Packed(r) + tail) == Rest(tail)
  {
    var w := Packed(r) + tail;
    assert w[1..1 + |r|] == r && w[1 + |r|..] == tail;
  }

  /** The part of a map that has no equals sign in it. */
  ghost function Kept(rec: Meta): Meta {
    map k | k in rec && Clean(k) && Clean(rec[k]) :: rec[k]
  }

  lemma KeptAll(rec: Meta)
    requires AllClean(rec)
    ensures Kept(rec) == rec
  {
  }

  ghost function KeptOf(rec: Meta, order: seq<Octets>): Meta
    requires forall k :: k in order ==> k in rec
  {
    map k | k in order && Clean(k) && Clean(rec[k]) :: rec[k]
  }

  lemma KeptNext(rec: Meta, init: seq<Octets>, k: Octets)
    requires k in rec && forall j :: j in init ==> j in rec
    ensures KeptOf(rec, init + [k]) ==
            KeptOf(rec, init) + if Clean(k) && Clean(rec[k]) then map[k := rec[k]] else map[]
  {
  }

  lemma {:induction false} EntriesOfRecords(rec: Meta, order: seq<Octets>)
    requires forall k :: k in order ==> k in rec
    ensures Entries(Records(rec, order)) == KeptOf(rec, order)
    decreases |order|
  {
    if order != [] {
      var k, init := order[|order| - 1], order[..|order| - 1];
      EntriesOfRecords(rec, init);
      EntryOfRecord(k, rec[k]);
      EntriesNext(Records(rec, init), Record(k, rec[k]));
      KeptNext(rec, init, k);
      assert order == init + [k];
    }
  }

  lemma KeptIsEntries(rec: Meta, order: seq<Octets>)
    requires Enumerates(order, rec)
    ensures Entries(Records(rec, order)) == Kept(rec)
  {
    EntriesOfRecords(rec, order);
  }

  /** A slice that starts with a packed map parses to what the map keeps, overlaid with what the
      bytes behind it parse to on their own. */
  lemma ParseOfPacked(rec: Meta, order: seq<Octets>, d: Slice, tail: Slice)
    requires AllFit(rec) && Enumerates(order, rec) && d.Valid() && tail.Valid()
    requires d.data == TxtBytes(rec, order) + tail.data && d.len == |TxtBytes(rec, order)| + tail.len
    ensures ParseTxt(d) ==
            match ParseTxt(tail) case None => None case Some(more) => Some(Kept(rec) + more)
  {
    var w := tail.data[..tail.len];
    assert d.data[..d.len] == TxtBytes(rec, order) + w && d.data[d.len..] == tail.data[tail.len..];
    CompleteOfPacked(rec, order, w);
    KeptIsEntries(rec, order);
    EntriesAppend(Records(rec, order), Complete(w));
    ClosingOverlay(Kept(rec), Entries(Complete(w)), Rest(w), tail.data[tail.len..]);
  }

  lemma ClosingOverlay(a: Meta, b: Meta, rest: Octets, behind: Octets)
    ensures Closing(a + b, rest, behind) ==
            match Closing(b, rest, behind) case None => None case Some(more) => Some(a + more)
  {
    if OneShort(rest) && behind != [] {
      OverlayAssociates(a, b, Entry(rest[1..] + [behind[0]]));
    }
  }

  lemma OverlayAssociates(a: Meta, b: Meta, c: Meta)
    ensures a + b + c == a + (b + c)
  {
  }

  lemma EntriesNext(records: seq<Octets>, r: Octets)
    ensures Entries(records + [r]) == Entries(records) + Entry(r)
  {
    assert (records + [r])[..|records|] == records;
  }

  lemma {:induction false} EntriesAppend(a: seq<Octets>, b: seq<Octets>)
    ensures Entries(a + b) == Entries(a) + Entries(b)
    decreases |b|
  {
    if b == [] {
      assert a + b == a;
    } else {
      var init, r := b[..|b| - 1], b[|b| - 1];
      EntriesAppend(a, init);
      assert a + init + [r] == a + b;
      EntriesNext(a + init, r);
      OverlayAssociates(Entries(a), Entries(init), Entry(r));
    }
  }

  /** Packing and parsing gives the map back, for every order of enumeration, exactly when every
      record fits its length byte and holds no equals sign beside its separator. */
  lemma TxtRoundTrip(rec: Meta, order: seq<Octets>)
    requires Enumerates(order, rec)
    ensures var b := TxtBytes(rec, order);
            ParseTxt(Slice(b, |b|)) == Some(rec) <==> AllClean(rec)
  {
    var b := TxtBytes(rec, order);
    var d := Slice(b, |b|);
    if AllClean(rec) {
      assert b + [] == b;
      ParseOfPacked(rec, order, d, Slice([], 0));
      KeptAll(rec);
      OverlayNothing(rec);
    }
    if ParseTxt(d) == Some(rec) {
      ParsedIsClean(d);
    }
  }

  /** The bytes 3 "a=" as a slice of three, one short of their record: the parser takes whatever byte
      stands behind the slice for the last of it, and panics if there is none. */
  lemma OneShortReadsOn(behind: Byte)
    requires behind != 0x3d
    ensures ParseTxt(Slice([3, 0x61, 0x3d, behind], 3)) == Some(map[[0x61] := [behind]])
    ensures ParseTxt(Slice([3, 0x61, 0x3d], 3)) == None
  {
    var w: Octets := [3, 0x61, EQUALS];
    assert [3, 0x61, EQUALS, behind][..3] == w == [3, 0x61, EQUALS][..3];
    assert [3, 0x61, EQUALS, behind][3..] == [behind] && w[3..] == [];
    assert Complete(w) == [] && Rest(w) == w && w[1..] + [behind] == Record([0x61], [behind]);
    EntryOfRecord([0x61], [behind]);
    OverlayNothing(Entry(Record([0x61], [behind])));
  }

  // ----- The bytes of a record

  /** A pair goes out as its length, the key, an equals sign and the value. */
  lemma TxtOfOne(rec: Meta, k: Octets)
    requires k in rec
    ensures TxtBytes(rec, [k]) == [(|k| + 1 + |rec[k]|) % 256] + k + [0x3d] + rec[k]
  {
    var one := [k];
    assert one[..0] == [] && TxtBytes(rec, one) == [] + Packed(Record(k, rec[k]));
  }

  /** Pairs go out one behind the other, in the order of enumeration. */
  lemma {:induction false} TxtInOrder(rec: Meta, a: seq<Octets>, b: seq<Octets>)
    requires (forall k :: k in a ==> k in rec) && (forall k :: k in b ==> k in rec)
    ensures (forall k :: k in a + b ==> k in rec) && TxtBytes(rec, a + b) == TxtBytes(rec, a) + TxtBytes(rec, b)
    decreases |b|
  {
    hide Packed, Record;
    if b == [] {
      assert a + b == a && TxtBytes(rec, b) == [];
    } else {
      var init := b[..|b| - 1];
      TxtInOrder(rec, a, init);
      assert (a + b)[..|a + b| - 1] == a + init;
    }
  }

  lemma ParseOfRecord(kv: Octets, behind: Octets)
    requires 1 <= |kv| <= 255
    ensures ParseTxt(Slice([|kv|] + kv + behind, |kv| + 1)) == Some(Entry(kv))
  {
    hide Entry;
    var d := Slice([|kv|] + kv + behind, |kv| + 1);
    assert d.data[..d.len] == Packed(kv) + [];
    CompleteOfOne(kv, []);
    assert [kv] + [] == [kv];
    EntriesOne(kv);
  }

  /** A record with one equals sign parses to the pair around it, whatever is behind the slice. */
  lemma PairParses(k: Octets, v: Octets, behind: Octets)
    requires |k| + 1 + |v| <= 255 && 0x3d !in k && 0x3d !in v
    ensures ParseTxt(Slice([|k| + 1 + |v|] + (k + [0x3d] + v) + behind, |k| + |v| + 2)) == Some(map[k := v])
  {
    hide ParseTxt, Entry;
    ParseOfRecord(k + [0x3d] + v, behind);
    EntryOfRecord(k, v);
  }

  /** One with none parses to nothing, and so does one with two or more. */
  lemma NoPairParses(a: Octets, b: Octets, c: Octets, behind: Octets)
    requires 1 <= |a| <= 255 && 0x3d !in a && |b| + |c| <= 253
    ensures ParseTxt(Slice([|a|] + a + behind, |a| + 1)) == Some(map[])
    ensures var kv := b + [0x3d] + c;
            0x3d in b || 0x3d in c ==> ParseTxt(Slice([|kv|] + kv + behind, |kv| + 1)) == Some(map[])
  {
    hide ParseTxt;
    ParseOfRecord(a, behind);
    SplitSingle(a);
    ParseOfRecord(b + [0x3d] + c, behind);
    EntryOfRecord(b, c);
  }

  // ----- A slice that ends inside the packed records

  lemma {:induction false} PackedPrefix(rec: Meta, order: seq<Octets>, k: nat)
    requires k <= |order| && forall j :: j in order ==> j in rec
    ensures TxtBytes(rec, order[..k]) <= TxtBytes(rec, order)
    decreases |order|
  {
    if k == |order| {
      assert order[..k] == order;
    } else {
      var init := order[..|order| - 1];
      assert init[..k] == order[..k];
      PackedPrefix(rec, init, k);
    }
  }

  /** The record that byte `n` belongs to. */
  lemma {:induction false} CutAt(rec: Meta, order: seq<Octets>, n: nat) returns (k: nat)
    requires (forall j :: j in order ==> j in rec) && n < |TxtBytes(rec, order)|
    ensures k < |order| && |TxtBytes(rec, order[..k])| <= n < |TxtBytes(rec, order[..k + 1])|
    decreases |order|
  {
    var init := order[..|order| - 1];
    if |TxtBytes(rec, init)| <= n {
      k := |order| - 1;
      assert order[..k + 1] == order;
    } else {
      k := CutAt(rec, init, n);
      assert init[..k] == order[..k] && init[..k + 1] == order[..k + 1];
    }
  }

  lemma OneMoreRecord(rec: Meta, order: seq<Octets>, k: nat)
    requires k < |order| && forall j :: j in order ==> j in rec
    ensures TxtBytes(rec, order[..k + 1]) == TxtBytes(rec, order[..k]) + Packed(Record(order[k], rec[order[k]]))
    ensures KeptOf(rec, order[..k + 1]) == KeptOf(rec, order[..k]) + Entry(Record(order[k], rec[order[k]]))
  {
    assert order[..k + 1][..k] == order[..k] && order[..k + 1] == order[..k] + [order[k]];
    KeptNext(rec, order[..k], order[k]);
    EntryOfRecord(order[k], rec[order[k]]);
  }

  /** A record cut short is no complete one, and one short of its end exactly when it lacks one byte. */
  lemma CutRecord(r: Octets, m: nat)
    requires 1 <= |r| <= 255 && m <= |r|
    ensures var w := Packed(r)[..m];
            && Complete(w) == [] && Rest(w) == w && (OneShort(w) <==> m == |r|)
            && (m == |r| ==> w[1..] + [r[|r| - 1]] == r)
  {
    var w := Packed(r)[..m];
    assert m > 0 ==> w[0] == |r|;
    if m == |r| {
      assert w[1..] == r[..|r| - 1];
    }
  }

  /** What a slice of `n` bytes of packed records parses to, whatever is behind them: the records of an
      initial part of the order, as many as fit `n + 1` bytes, since the one that the cut leaves a byte
      short gets that byte from behind the slice. */
  lemma ParseOfCut(rec: Meta, order: seq<Octets>, tail: Octets, n: nat) returns (k: nat)
    requires AllFit(rec) && (forall j :: j in order ==> j in rec) && n < |TxtBytes(rec, order)|
    ensures k <= |order| && ParseTxt(Slice(TxtBytes(rec, order) + tail, n)) == Some(KeptOf(rec, order[..k]))
    ensures |TxtBytes(rec, order[..k])| <= n + 1 && (k < |order| ==> n + 1 < |TxtBytes(rec, order[..k + 1])|)
  {
    hide TxtBytes, Complete, Rest, Entries, Records, KeptOf, Entry, OneShort, Packed;
    var j := CutAt(rec, order, n);
    var r := Record(order[j], rec[order[j]]);
    var front, all := TxtBytes(rec, order[..j]), TxtBytes(rec, order) + tail;
    var m := n - |front|;
    OneMoreRecord(rec, order, j);
    CutSlice(rec, order, tail, j, n);
    CompleteOfPacked(rec, order[..j], Packed(r)[..m]);
    CutRecord(r, m);
    PackedLength(r);
    EntriesOfRecords(rec, order[..j]);
    assert Records(rec, order[..j]) + [] == Records(rec, order[..j]);
    if m == |r| {
      k := j + 1;
      if k < |order| {
        OneMoreRecord(rec, order, k);
        PackedLength(Record(order[k], rec[order[k]]));
      }
    } else {
      k := j;
    }
  }

  lemma PackedLength(r: Octets)
    ensures |Packed(r)| == |r| + 1
  {
  }

  lemma PackedLast(r: Octets)
    ensures r != [] ==> Packed(r)[|r|] == r[|r| - 1]
  {
  }

  lemma CutSlice(rec: Meta, order: seq<Octets>, tail: Octets, j: nat, n: nat)
    requires (forall k :: k in order ==> k in rec) && j < |order|
    requires |TxtBytes(rec, order[..j])| <= n < |TxtBytes(rec, order[..j + 1])|
    ensures var r, all := Record(order[j], rec[order[j]]), TxtBytes(rec, order) + tail;
            var m := n - |TxtBytes(rec, order[..j])|;
            && n < |all| && m <= |r|
            && all[..n] == TxtBytes(rec, order[..j]) + Packed(r)[..m]
            && (m == |r| ==> all[n..][0] == r[|r| - 1])
  {
    var r := Record(order[j], rec[order[j]]);
    PackedPrefix(rec, order, j + 1);
    OneMoreRecord(rec, order, j);
    PackedLength(r);
    PackedLast(r);
    hide TxtBytes, Record, Packed, KeptOf, Entry;
    CutInside(TxtBytes(rec, order[..j]), Packed(r), TxtBytes(rec, order), tail, n);
  }

  lemma CutInside(a: Octets, p: Octets, all: Octets, tail: Octets, n: nat)
    requires a + p <= all && |a| <= n < |a| + |p|
    ensures n < |all| && (all + tail)[..n] == a + p[..n - |a|] && (all + tail)[n..][0] == p[n - |a|]
  {
    assert all[..n] == (a + p)[..n];
    assert all[n] == (a + p)[n];
  }
}
