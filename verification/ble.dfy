/**
 Sending over a BLE notification: data that fits goes out as it is, anything longer in numbered
 pieces that one buffer is refilled with. Counts and numbers are eight bits wide.
 */
module Ble {
  import opened Bytes

  const HASH: Byte := 0x23

  /** Number of pieces of `c` bytes that `size` bytes need. */
  function PieceCount(size: nat, c: nat): nat
    requires c > 0
  {
    if size % c == 0 then size / c else size / c + 1
  }

  lemma PieceCountIsCeiling(size: nat, c: nat)
    requires c > 0 && size > 0
    ensures PieceCount(size, c) >= 1
    ensures (PieceCount(size, c) - 1) * c < size <= PieceCount(size, c) * c
  {
    var q, r := size / c, size % c;
    assert size == q * c + r;
    assert (q + 1) * c == q * c + c && (q - 1) * c == q * c - c;
    assert q == 0 ==> q * c == 0;
  }

  /** Offset of piece `n`, counted from one. */
  function From(n: nat, c: nat): nat
    requires n >= 1
  {
    (n - 1) * c
  }

  lemma FromNext(n: nat, c: nat)
    requires n >= 1
    ensures From(n + 1, c) == From(n, c) + c
  {
    assert n * c == (n - 1) * c + c;
  }

  lemma FromGrows(m: nat, n: nat, c: nat)
    requires 1 <= m <= n
    ensures From(m, c) <= From(n, c)
    decreases n - m
  {
    if m < n {
      FromNext(m, c);
      FromGrows(m + 1, n, c);
    }
  }

  /** The data of piece `n`: `c` bytes, or what is left. */
  function Chunk(data: Octets, c: nat, n: nat): Octets
    requires n >= 1 && From(n, c) <= |data|
  {
    var from := From(n, c);
    data[from..if from + c <= |data| then from + c else |data|]
  }

  /** Piece `n` of `total` as it goes out. */
  function Piece(data: Octets, c: nat, total: Byte, n: Byte): Octets
    requires n >= 1 && From(n, c) <= |data|
  {
    [HASH, HASH, total, n] + Chunk(data, c, n)
  }

  /** Piece `n` lies inside the data, is not empty and fits the buffer. */
  lemma PieceInside(data: Octets, c: nat, n: nat)
    requires c > 0 && data != [] && 1 <= n <= PieceCount(|data|, c)
    ensures From(n, c) < |data|
    ensures 1 <= |Chunk(data, c, n)| <= c
    ensures n < PieceCount(|data|, c) ==> From(n, c) + c <= |data|
    ensures n == PieceCount(|data|, c) ==> From(n, c) + c >= |data|
  {
    var total := PieceCount(|data|, c);
    PieceCountIsCeiling(|data|, c);
    FromGrows(n, total, c);
    FromNext(total, c);
    if n < total {
      FromNext(n, c);
      FromGrows(n + 1, total, c);
    }
  }

  /** `p` is piece `n` of `total`. */
  ghost predicate IsPiece(data: Octets, c: nat, total: Byte, n: nat, p: Octets) {
    1 <= n <= 255 && From(n, c) <= |data| && p == Piece(data, c, total, n)
  }

  /** The first pieces of the data, in order. */
  ghost predicate IsFront(data: Octets, c: nat, total: Byte, out: seq<Octets>) {
    |out| <= total && forall i :: 0 <= i < |out| ==> IsPiece(data, c, total, i + 1, out[i])
  }

  lemma FrontNext(data: Octets, c: nat, total: Byte, out: seq<Octets>, p: Octets)
    requires IsFront(data, c, total, out) && |out| < total
    requires IsPiece(data, c, total, |out| + 1, p)
    ensures IsFront(data, c, total, out + [p])
  {
    hide IsPiece;
  }

  /** All the pieces of the data, in order. */
  ghost predicate IsPieces(data: Octets, c: nat, out: seq<Octets>)
    requires c > 0
  {
    data != [] && |out| == PieceCount(|data|, c) <= 254 && IsFront(data, c, |out|, out)
  }

  /** What is left for the piece taken for the last one fits the buffer exactly when it is the last;
      every piece before it is a full one. */
  lemma LastPieceFitsExactly(size: nat, c: nat, n: nat)
    requires c > 0 && size > 0 && 1 <= n <= PieceCount(size, c)
    ensures From(n, c) < size && (n < PieceCount(size, c) <==> From(n, c) + c < size)
  {
    var count := PieceCount(size, c);
    PieceCountIsCeiling(size, c);
    FromGrows(n, count, c);
    FromNext(count, c);
    FromNext(n, c);
    if n < count {
      FromGrows(n + 1, count, c);
    }
  }

  class Server {
    var isConnected: bool
    var mtu: nat

    /** The notifications given to the stack. */
    ghost var sent: seq<Octets>

    constructor (connected: bool, mtu: nat)
      ensures isConnected == connected && this.mtu == mtu && sent == []
    {
      isConnected, this.mtu, sent := connected, mtu, [];
    }

    /** `room` is whether the buffer could be allocated; the result is whether every access stayed
        inside the data and the buffer. */
    method BleSend(data: Octets, room: bool) returns (ok: bool)
      requires mtu > 7
      modifies this`sent
      ensures old(sent) <= sent
      ensures var out, count := sent[|old(sent)|..], PieceCount(|data|, mtu - 7);
              if !isConnected then ok && out == []
              else if |data| <= mtu - 3 then ok && out == [data]
              else if !room then ok && out == []
              else if count <= 254 then ok && IsPieces(data, mtu - 7, out)
              else
                && (ok <==> count % 256 == 0)
                && IsFront(data, mtu - 7, count % 256, out)
                && |out| == if ok then 0 else if count == 255 then 255 else count % 256 - 1
    {
      ok := true;
      if isConnected {
        if |data| <= mtu - 3 {
          sent := sent + [data];
        } else {
          var totalNum: nat;
          if |data| % (mtu - 7) == 0 {
            totalNum := |data| / (mtu - 7) % 256;
          } else {
            totalNum := (|data| / (mtu - 7) + 1) % 256;
          }
          if !room {
            return;
          }
          PieceCountIsCeiling(|data|, mtu - 7);
          ok := SendPieces(data, totalNum);
        }
      }
    }

    /** The loop over the pieces, with its eight-bit counter. */
    method SendPieces(data: Octets, totalNum: Byte) returns (ok: bool)
      requires mtu > 7 && data != [] && totalNum == PieceCount(|data|, mtu - 7) % 256
      modifies this`sent
      ensures old(sent) <= sent
      ensures var out, count := sent[|old(sent)|..], PieceCount(|data|, mtu - 7);
              && IsFront(data, mtu - 7, totalNum, out)
              && (ok <==> totalNum == 0 || count <= 254)
              && |out| == if totalNum == 0 then 0 else if count == totalNum then totalNum else totalNum - 1
    {
      hide From, PieceCount, Piece;
      var c := mtu - 7;
      ghost var count := PieceCount(|data|, c);
      var temp := new Byte[mtu - 3](_ => 0);
      var currentNum: Byte := 1;
      ghost var out: seq<Octets> := [];
      while currentNum <= totalNum
        invariant fresh(temp) && sent == old(sent) + out && IsFront(data, c, totalNum, out)
        invariant if currentNum == 0 then totalNum == 255 == count && |out| == 255
                  else |out| == currentNum - 1 <= totalNum && (|out| == totalNum > 0 ==> count == totalNum)
        decreases if currentNum == 0 then 0 else 256 - currentNum
      {
        assert sent[|old(sent)|..] == out;
        if currentNum == 0 {
          // The offset of this piece would be negative.
          return false;
        }
        LastPieceFitsExactly(|data|, c, currentNum);
        if currentNum == totalNum && |data| - From(currentNum, c) > c {
          // The rest is longer than the buffer.
          return false;
        }
        var len := FillPiece(temp, data, c, totalNum, currentNum);
        sent := sent + [temp[..len]];
        FrontNext(data, c, totalNum, out, temp[..len]);
        out := out + [temp[..len]];
        currentNum := (currentNum + 1) % 256;
      }
      assert sent[|old(sent)|..] == out;
      return true;
    }
  }

  method FillPiece(temp: array<Byte>, data: Octets, c: nat, totalNum: Byte, currentNum: Byte) returns (len: nat)
    requires c > 0 && temp.Length == c + 4
    requires 1 <= currentNum <= totalNum && From(currentNum, c) <= |data|
    requires currentNum < totalNum ==> From(currentNum, c) + c <= |data|
    requires currentNum == totalNum ==> |data| - From(currentNum, c) <= c
    modifies temp
    ensures len <= temp.Length && temp[..len] == Piece(data, c, totalNum, currentNum)
  {
    temp[0] := HASH;
    temp[1] := HASH;
    temp[2] := totalNum;
    temp[3] := currentNum;
    var from := From(currentNum, c);
    var n := if currentNum < totalNum then c else |data| - from;
    for k := 0 to n
      invariant temp[..4] == [HASH, HASH, totalNum, currentNum]
      invariant temp[4..4 + k] == data[from..from + k]
    {
      temp[4 + k] := data[from + k];
      assert temp[4..4 + k + 1] == temp[4..4 + k] + [data[from + k]];
    }
    len := 4 + n;
    assert temp[..len] == temp[..4] + temp[4..len];
  }

  // ----- What the pieces mean

  /** Some arrived piece with number `n`, without its four header bytes. */
  function Numbered(arrived: seq<Octets>, n: nat): Option<Octets> {
    if arrived == [] then None
    else if |arrived[0]| >= 4 && arrived[0][3] == n then Some(arrived[0][4..])
    else Numbered(arrived[1..], n)
  }

  /** The data of pieces `n` to `total`, joined. */
  function Assemble(arrived: seq<Octets>, n: nat, total: nat): Option<Octets>
    decreases total - n
  {
    if n > total then Some([])
    else
      match (Numbered(arrived, n), Assemble(arrived, n + 1, total))
      case (Some(head), Some(tail)) => Some(head + tail)
      case _ => None
  }

  /** The pieces came in some order, some perhaps more than once, and none is missing. */
  ghost predicate Arrived(pieces: seq<Octets>, arrived: seq<Octets>) {
    forall p :: p in arrived <==> p in pieces
  }

  lemma {:induction false} NumberedFinds(arrived: seq<Octets>, p: Octets)
    requires p in arrived && |p| >= 4
    requires forall q :: q in arrived && |q| >= 4 && q[3] == p[3] ==> q == p
    ensures Numbered(arrived, p[3]) == Some(p[4..])
    decreases |arrived|
  {
    if |arrived[0]| >= 4 && arrived[0][3] == p[3] {
      assert arrived[0] in arrived;
    } else {
      assert p in arrived[1..];
      NumberedFinds(arrived[1..], p);
    }
  }

  lemma FindsPiece(data: Octets, c: nat, pieces: seq<Octets>, arrived: seq<Octets>, n: nat)
    requires c > 0 && IsPieces(data, c, pieces) && Arrived(pieces, arrived) && 1 <= n <= |pieces|
    ensures From(n, c) <= |data| && Numbered(arrived, n) == Some(Chunk(data, c, n))
  {
    var p := pieces[n - 1];
    assert p in pieces && p[3] == n;
    forall q | q in arrived && |q| >= 4 && q[3] == p[3] ensures q == p {
      var i :| 0 <= i < |pieces| && pieces[i] == q;
      assert q[3] == i + 1;
    }
    NumberedFinds(arrived, p);
    assert p[4..] == Chunk(data, c, n);
  }

  lemma {:induction false} AssembleFrom(data: Octets, c: nat, pieces: seq<Octets>, arrived: seq<Octets>, n: nat)
    requires c > 0 && IsPieces(data, c, pieces) && Arrived(pieces, arrived) && 1 <= n <= |pieces|
    ensures From(n, c) <= |data| && Assemble(arrived, n, |pieces|) == Some(data[From(n, c)..])
    decreases |pieces| - n
  {
    FindsPiece(data, c, pieces, arrived, n);
    PieceInside(data, c, n);
    FromNext(n, c);
    if n < |pieces| {
      AssembleFrom(data, c, pieces, arrived, n + 1);
      assert Chunk(data, c, n) + data[From(n + 1, c)..] == data[From(n, c)..];
    } else {
      assert Chunk(data, c, n) + [] == data[From(n, c)..];
    }
  }

  /** Joining the pieces by number gives the data back, in whatever order and however often they
      arrive. */
  lemma Reassembles(data: Octets, c: nat, pieces: seq<Octets>, arrived: seq<Octets>)
    requires c > 0 && IsPieces(data, c, pieces) && Arrived(pieces, arrived)
    ensures Assemble(arrived, 1, |pieces|) == Some(data)
  {
    PieceCountIsCeiling(|data|, c);
    AssembleFrom(data, c, pieces, arrived, 1);
    assert data[0..] == data;
  }

  /** Every piece starts with "##", is numbered in order, is not empty, is at most three bytes under the
      MTU and holds the bytes from its place on. */
  lemma PiecesFit(data: Octets, mtu: nat, pieces: seq<Octets>, i: nat)
    requires mtu > 7 && IsPieces(data, mtu - 7, pieces) && i < |pieces|
    ensures 5 <= |pieces[i]| <= mtu - 3 && pieces[i][..4] == [0x23, 0x23, |pieces|, i + 1]
    ensures From(i + 1, mtu - 7) + |pieces[i]| - 4 <= |data|
    ensures pieces[i][4..] == data[From(i + 1, mtu - 7)..From(i + 1, mtu - 7) + |pieces[i]| - 4]
  {
    PieceInside(data, mtu - 7, i + 1);
  }
}
