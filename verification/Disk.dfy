/** A file as a byte sequence with a position, and the transfer loops over it (src/core/dbfile.cpp). */
module Disk {
  import opened PageModel

  /** `src` written over `data` at `pos`; a gap behind the end is filled with zeros. */
  function Overwrite(data: seq<Byte>, pos: nat, src: seq<Byte>): (r: seq<Byte>)
    ensures |src| == 0 ==> r == data
    ensures |src| > 0 ==> |r| == if pos + |src| > |data| then pos + |src| else |data|
    ensures forall i :: pos <= i < pos + |src| ==> r[i] == src[i - pos]
    ensures forall i :: 0 <= i < |data| && !(pos <= i < pos + |src|) ==> r[i] == data[i]
    ensures forall i :: |data| <= i < pos && |src| > 0 ==> r[i] == 0
  {
    if |src| == 0 then data
    else
      var n := if pos + |src| > |data| then pos + |src| else |data|;
      seq(n, i requires 0 <= i < n =>
        if pos <= i < pos + |src| then src[i - pos] else if i < |data| then data[i] else 0)
  }

  lemma OverwriteTwice(data: seq<Byte>, pos: nat, a: seq<Byte>, b: seq<Byte>)
    ensures Overwrite(Overwrite(data, pos, a), pos + |a|, b) == Overwrite(data, pos, a + b)
  {
    var x, y := Overwrite(Overwrite(data, pos, a), pos + |a|, b), Overwrite(data, pos, a + b);
    if |a| == 0 {
      assert a + b == b;
    } else if |b| == 0 {
      assert a + b == a;
    } else {
      assert |x| == |y|;
      assert forall i :: 0 <= i < |x| ==> x[i] == y[i];
    }
  }

  /** A longer prefix is written by writing what it adds. */
  lemma OverwriteStep(d0: seq<Byte>, d1: seq<Byte>, d2: seq<Byte>, pos: nat, src: seq<Byte>, n: nat, rest: seq<Byte>,
                      k: nat)
    requires n + k <= |src| && rest == src[n..]
    requires d1 == Overwrite(d0, pos, src[..n]) && d2 == Overwrite(d1, pos + n, rest[..k])
    ensures d2 == Overwrite(d0, pos, src[..n + k])
  {
    var a, b := src[..n], rest[..k];
    assert src[..n + k] == a + b;
    OverwriteTwice(d0, pos, a, b);
  }

  /** What is written can be read at its place. */
  lemma OverwriteSlice(data: seq<Byte>, at: nat, src: seq<Byte>, o: nat, w: nat)
    requires o + w <= |src| && w > 0
    ensures at + o + w <= |Overwrite(data, at, src)| && Overwrite(data, at, src)[at + o..at + o + w] == src[o..o + w]
  {
  }

  /** `n` bytes of `data` from `pos`, or what there is of them. */
  function Available(data: seq<Byte>, pos: nat, n: nat): (r: seq<Byte>)
    ensures pos >= |data| ==> |r| == 0
    ensures pos < |data| ==> |r| == if pos + n <= |data| then n else |data| - pos
    ensures forall i :: 0 <= i < |r| ==> r[i] == data[pos + i]
  {
    if pos >= |data| then [] else if pos + n <= |data| then data[pos..pos + n] else data[pos..]
  }

  class File {
    var data: seq<Byte>
    var pos: nat

    constructor (data: seq<Byte>)
      ensures this.data == data && pos == 0
    {
      this.data, pos := data, 0;
    }

    method Seek(offset: nat)
      modifies this`pos
      ensures pos == offset
    {
      pos := offset;
    }

    /** Reads at least one byte unless none is wanted or left; otherwise as many as the system likes. */
    method Read(n: nat) returns (chunk: seq<Byte>)
      modifies this`pos
      ensures |chunk| <= n && pos == old(pos) + |chunk|
      ensures chunk == [] <==> n == 0 || old(pos) >= |data|
      ensures chunk != [] ==> pos <= |data| && chunk == data[old(pos)..pos]
    {
      if n == 0 || pos >= |data| {
        return [];
      }
      var most := Min(n, |data| - pos);
      var k: nat :| 1 <= k <= most;
      chunk := data[pos..pos + k];
      pos := pos + k;
    }

    /** Writes at least one byte unless there is none; otherwise as many as the system likes. */
    method Write(src: seq<Byte>) returns (k: nat)
      modifies this
      ensures k <= |src| && (k == 0 <==> |src| == 0)
      ensures pos == old(pos) + k && data == Overwrite(old(data), old(pos), src[..k])
    {
      if |src| == 0 {
        return 0;
      }
      k :| 1 <= k <= |src|;
      data := Overwrite(data, pos, src[..k]);
      pos := pos + k;
    }
  }

  /** Fills a buffer until it is full or the file ends, whatever the single reads return. */
  method ReadBuffer(f: File, dst: array<Byte>, size: nat) returns (nread: nat)
    requires size <= dst.Length
    modifies f`pos, dst
    ensures nread == |Available(f.data, old(f.pos), size)| && f.pos == old(f.pos) + nread
    ensures dst[..nread] == Available(f.data, old(f.pos), size)
    ensures forall i :: nread <= i < dst.Length ==> dst[i] == old(dst[i])
  {
    nread := 0;
    while nread < size
      invariant nread <= size && f.pos == old(f.pos) + nread && (nread > 0 ==> f.pos <= |f.data|)
      invariant forall i :: 0 <= i < nread ==> dst[i] == f.data[old(f.pos) + i]
      invariant forall i :: nread <= i < dst.Length ==> dst[i] == old(dst[i])
    {
      var chunk := f.Read(size - nread);
      if chunk == [] {
        return;
      }
      forall i | nread <= i < nread + |chunk| {
        dst[i] := chunk[i - nread];
      }
      nread := nread + |chunk|;
    }
  }

  /** Writes a whole buffer, whatever the single writes return. */
  method WriteBuffer(f: File, src: seq<Byte>) returns (nwrite: nat)
    modifies f
    ensures nwrite == |src| && f.pos == old(f.pos) + |src|
    ensures f.data == Overwrite(old(f.data), old(f.pos), src)
  {
    nwrite := 0;
    while nwrite < |src|
      invariant nwrite <= |src| && f.pos == old(f.pos) + nwrite
      invariant f.data == Overwrite(old(f.data), old(f.pos), src[..nwrite])
    {
      ghost var before := f.data;
      var rest := src[nwrite..];
      var nbyte := f.Write(rest);
      OverwriteStep(old(f.data), before, f.data, old(f.pos), src, nwrite, rest, nbyte);
      nwrite := nwrite + nbyte;
    }
    assert src[..nwrite] == src;
  }

  /** `k` bytes of a number, least significant first. */
  function Encode(n: nat, k: nat): (s: seq<Byte>)
    ensures |s| == k
  {
    if k == 0 then [] else [n % 256] + Encode(n / 256, k - 1)
  }

  function Decode(s: seq<Byte>): (n: nat)
    ensures n < Limit(|s|)
  {
    if |s| == 0 then 0 else s[0] + 256 * Decode(s[1..])
  }

  /** 256 to the power `k`. */
  function Limit(k: nat): (p: nat)
    ensures p > 0
  {
    if k == 0 then 1 else 256 * Limit(k - 1)
  }

  /** Byte `i` has the weight `Limit(i)`. */
  lemma {:induction false} EncodeDigit(n: nat, k: nat, i: nat)
    requires i < k
    ensures Encode(n, k)[i] == n / Limit(i) % 256
  {
    if i > 0 {
      EncodeDigit(n / 256, k - 1, i - 1);
      Divides(n, Limit(i - 1));
    }
  }

  /** Dividing by 256 and then by `d` is dividing by their product. */
  lemma Divides(n: nat, d: nat)
    requires d > 0
    ensures n / 256 / d == n / (256 * d)
  {
    var q, r := n / 256 / d, n / 256 % d;
    assert n / 256 == q * d + r;
    assert q * (256 * d) == 256 * (q * d);
    var rest := 256 * r + n % 256;
    assert n == q * (256 * d) + rest && 0 <= rest < 256 * d;
    DivIs(n, 256 * d, q, rest);
  }

  /** Numbers that fit survive the round trip. */
  lemma {:induction false} DecodeEncode(n: nat, k: nat)
    requires n < Limit(k)
    ensures Decode(Encode(n, k)) == n
  {
    if k > 0 {
      DecodeEncode(n / 256, k - 1);
      assert Encode(n, k)[1..] == Encode(n / 256, k - 1);
    }
  }
}
