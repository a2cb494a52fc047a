// Bytes, strings of bytes and the fixed-width integers packed into them.

module Bytes {
  type byte = x: int | 0 <= x < 256

  function Ascii(s: string): (b: seq<byte>)
    ensures |b| == |s|
    ensures forall i :: 0 <= i < |s| && s[i] as int < 256 ==> b[i] == s[i] as int
  {
    seq(|s|, i requires 0 <= i < |s| => s[i] as int % 256)
  }

  function Zeros(n: nat): (b: seq<byte>)
    ensures |b| == n && forall i :: 0 <= i < n ==> b[i] == 0
  {
    seq(n, _ => 0)
  }

  function HexDigit(n: nat): byte
    requires n < 16
  {
    if n < 10 then 48 + n else 87 + n
  }

  function LE16(x: int): (b: seq<byte>)
    requires 0 <= x < 0x1_0000
    ensures |b| == 2
  {
    [x % 256, x / 256]
  }

  function FromLE16(b: seq<byte>): (x: int)
    requires |b| == 2
    ensures 0 <= x < 0x1_0000
  {
    var lo: int, hi: int := b[0], b[1];
    lo + 256 * hi
  }

  lemma LE16RoundTrip(x: int)
    requires 0 <= x < 0x1_0000
    ensures FromLE16(LE16(x)) == x
  {
  }

  function BE16(x: int): (b: seq<byte>)
    requires 0 <= x < 0x1_0000
    ensures |b| == 2
  {
    [x / 256, x % 256]
  }

  function FromBE16(b: seq<byte>): (x: int)
    requires |b| == 2
    ensures 0 <= x < 0x1_0000
  {
    var hi: int, lo: int := b[0], b[1];
    256 * hi + lo
  }

  function LE32(x: int): (b: seq<byte>)
    requires 0 <= x < 0x1_0000_0000
    ensures |b| == 4
  {
    LE16(x % 0x1_0000) + LE16(x / 0x1_0000)
  }

  function FromLE32(b: seq<byte>): (x: int)
    requires |b| == 4
    ensures 0 <= x < 0x1_0000_0000
  {
    FromLE16(b[..2]) + 0x1_0000 * FromLE16(b[2..])
  }

  lemma LE32RoundTrip(x: int)
    requires 0 <= x < 0x1_0000_0000
    ensures FromLE32(LE32(x)) == x
  {
    var b := LE32(x);
    assert b[..2] == LE16(x % 0x1_0000) && b[2..] == LE16(x / 0x1_0000);
  }

  lemma ConcatAssoc<T>(a: seq<T>, b: seq<T>, c: seq<T>)
    ensures (a + b) + c == a + (b + c)
  {
  }

  // Part of a piece of the data.
  lemma SliceOf<T>(data: seq<T>, at: nat, t: seq<T>, i: nat, j: nat)
    requires at + |t| <= |data| && data[at..at + |t|] == t && i <= j <= |t|
    ensures data[at + i..at + j] == t[i..j]
    ensures i < j ==> data[at + i] == t[i]
  {
    forall k | i <= k < j
      ensures data[at + k] == t[k]
    {
      assert data[at..at + |t|][k] == data[at + k];
    }
  }

  // Pieces laid end to end.
  function Cat<T>(pieces: seq<seq<T>>): seq<T> {
    if pieces == [] then [] else Cat(pieces[..|pieces| - 1]) + pieces[|pieces| - 1]
  }

  lemma {:induction false} CatSplit<T>(a: seq<seq<T>>, b: seq<seq<T>>)
    ensures Cat(a + b) == Cat(a) + Cat(b)
  {
    if b == [] {
      assert a + b == a;
    } else {
      var n := |b| - 1;
      assert (a + b)[..|a| + n] == a + b[..n];
      CatSplit(a, b[..n]);
      ConcatAssoc(Cat(a), Cat(b[..n]), b[n]);
    }
  }

  lemma CatOne<T>(x: seq<T>)
    ensures Cat([x]) == x
  {
    assert [x][..0] == [];
  }

  lemma CatLast<T>(pieces: seq<seq<T>>, x: seq<T>)
    ensures Cat(pieces + [x]) == Cat(pieces) + x
  {
    hide Cat;
    CatSplit(pieces, [x]);
    CatOne(x);
  }

  lemma CatHead<T>(x: seq<T>, pieces: seq<seq<T>>)
    ensures Cat([x] + pieces) == x + Cat(pieces)
  {
    hide Cat;
    CatSplit([x], pieces);
    CatOne(x);
  }

  lemma CatAround<T>(pieces: seq<seq<T>>, i: nat, w: seq<T>)
    requires i < |pieces|
    ensures Cat(pieces[i := w]) == Cat(pieces[..i]) + w + Cat(pieces[i + 1..])
  {
    hide Cat;
    assert pieces[i := w] == pieces[..i] + [w] + pieces[i + 1..];
    CatSplit(pieces[..i] + [w], pieces[i + 1..]);
    CatLast(pieces[..i], w);
  }

  // Where a piece lies among the others.
  lemma PieceAt<T>(pieces: seq<seq<T>>, i: nat)
    requires i < |pieces|
    ensures Cat(pieces[..i + 1]) == Cat(pieces[..i]) + pieces[i]
    ensures |Cat(pieces[..i])| + |pieces[i]| <= |Cat(pieces)|
    ensures Cat(pieces)[|Cat(pieces[..i])|..|Cat(pieces[..i])| + |pieces[i]|] == pieces[i]
  {
    hide Cat;
    assert pieces[..i + 1] == pieces[..i] + [pieces[i]] && pieces[i := pieces[i]] == pieces;
    CatLast(pieces[..i], pieces[i]);
    CatAround(pieces, i, pieces[i]);
  }

  // A view of `data` from `i` that starts with `prefix`, as strncmp over its length decides.
  predicate StartsAt(data: seq<byte>, i: nat, prefix: seq<byte>) {
    i + |prefix| <= |data| && data[i..i + |prefix|] == prefix
  }

  // Python's data[i:j], which stops at the end of the data.
  function Slice(data: seq<byte>, i: nat, j: nat): (r: seq<byte>)
    ensures i <= j <= |data| ==> r == data[i..j]
    ensures |r| <= |data| && (i <= j ==> |r| <= j - i)
  {
    var hi := if j <= |data| then j else |data|;
    if i <= hi then data[i..hi] else []
  }

  // Copying `src` into the array at `at` (memcpy).
  method CopyIn(dst: array<byte>, at: nat, src: seq<byte>)
    requires at + |src| <= dst.Length
    modifies dst
    ensures dst[..] == old(dst[..at]) + src + old(dst[at + |src|..])
  {
    for i := 0 to |src|
      invariant dst[..at] == old(dst[..at])
      invariant dst[at..at + i] == src[..i]
      invariant dst[at + i..] == old(dst[at + i..])
    {
      dst[at + i] := src[i];
      assert dst[at..at + i + 1] == dst[at..at + i] + [dst[at + i]];
      assert old(dst[at + i + 1..]) == old(dst[at + i..])[1..];
      assert dst[at + i + 1..] == dst[at + i..][1..];
    }
    assert dst[..] == dst[..at] + dst[at..at + |src|] + dst[at + |src|..];
  }
}
