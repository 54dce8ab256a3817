/** Byte-addressed storage as a flat sequence. */
module Medium {

  type byte = bv8

  function Overwrite<T>(m: seq<T>, at: int, data: seq<T>): (r: seq<T>)
    requires 0 <= at && at + |data| <= |m|
    ensures |r| == |m|
  {
    m[..at] + data + m[at + |data|..]
  }

  lemma OverwriteTwice(m: seq<byte>, at: int, x: seq<byte>, y: seq<byte>)
    requires 0 <= at && at + |x| + |y| <= |m|
    ensures Overwrite(Overwrite(m, at, x), at + |x|, y) == Overwrite(m, at, x + y)
  {
  }

  /** `d'` is `d` with `len` bytes of `m`, from `lo` on, copied to `at`. */
  ghost predicate Copied(d: seq<byte>, d': seq<byte>, at: int, m: seq<byte>, lo: int, len: int) {
    && 0 <= at && 0 <= lo && 0 <= len && at + len <= |d| == |d'| && lo + len <= |m|
    && forall i {:trigger d'[i]} :: 0 <= i < |d| ==> d'[i] == if at <= i < at + len then m[lo + i - at] else d[i]
  }

  lemma CopiedIsOverwrite(d: seq<byte>, d': seq<byte>, at: int, m: seq<byte>, lo: int, len: int)
    requires 0 <= at && 0 <= lo && 0 <= len && at + len <= |d| && lo + len <= |m|
    ensures Copied(d, d', at, m, lo, len) <==> d' == Overwrite(d, at, m[lo..lo + len])
  {
    var w := Overwrite(d, at, m[lo..lo + len]);
    assert forall i :: 0 <= i < |d| ==> w[i] == if at <= i < at + len then m[lo + i - at] else d[i];
  }

  lemma CopyNothing(d: seq<byte>, at: int, m: seq<byte>, lo: int)
    requires 0 <= at <= |d| && 0 <= lo <= |m|
    ensures Copied(d, d, at, m, lo, 0)
  {
  }

  /** No bytes are copied from wherever they are not. */
  lemma CopyNone(d: seq<byte>, d': seq<byte>, at: int, m: seq<byte>, lo: int, lo': int)
    requires Copied(d, d', at, m, lo, 0) && 0 <= lo' <= |m|
    ensures Copied(d, d', at, m, lo', 0)
  {
  }

  /** Bytes may be copied to anywhere if they are none. */
  lemma CopyNowhere(d: seq<byte>, d': seq<byte>, at: int, at': int, m: seq<byte>, lo: int)
    requires Copied(d, d', at, m, lo, 0) && 0 <= at' <= |d|
    ensures Copied(d, d', at', m, lo, 0)
  {
  }

  /** Copying the next bytes extends the copy. */
  lemma CopyOn(d: seq<byte>, d1: seq<byte>, d2: seq<byte>, at: int, m: seq<byte>, lo: int, len1: int, len2: int)
    requires Copied(d, d1, at, m, lo, len1) && Copied(d1, d2, at + len1, m, lo + len1, len2)
    ensures Copied(d, d2, at, m, lo, len1 + len2)
  {
  }

  /** Copying by way of a buffer. */
  lemma CopyThrough(b: seq<byte>, size: int, d: seq<byte>, d': seq<byte>, p: int, m: seq<byte>, lo: int, at: int,
      len: int)
    requires |b| == size && Copied(d, d', p, b, at, len) && 0 <= lo && lo + size <= |m|
    requires forall i {:trigger b[i]} :: 0 <= i < size ==> b[i] == m[lo + i]
    ensures Copied(d, d', p, m, lo + at, len)
  {
  }

  /** Patching a copy of a block and writing the block back changes just the patch. */
  lemma ReadModifyWrite(m: seq<byte>, m': seq<byte>, base: int, size: int, b: seq<byte>, b': seq<byte>, at: int,
      s: seq<byte>, p: int, len: int)
    requires |b| == |b'| == size && 0 <= base && base + size <= |m|
    requires forall i {:trigger b[i]} :: 0 <= i < size ==> b[i] == m[base + i]
    requires Copied(b, b', at, s, p, len) && Copied(m, m', base, b', 0, size)
    ensures Copied(m, m', base + at, s, p, len)
  {
    forall i | 0 <= i < |m| ensures m'[i] == if base + at <= i < base + at + len then s[p + i - base - at] else m[i] {
      if base <= i < base + size { assert m'[i] == b'[i - base] && b[i - base] == m[i]; }
    }
  }

  lemma OverwriteRead<T>(m: seq<T>, at: int, x: seq<T>)
    requires 0 <= at && at + |x| <= |m|
    ensures Overwrite(m, at, x)[at..at + |x|] == x
    ensures forall i :: 0 <= i < |m| && !(at <= i < at + |x|) ==> Overwrite(m, at, x)[i] == m[i]
  {
  }

  /** memcpy into an array. */
  method CopyInto(dst: array<byte>, at: nat, data: seq<byte>)
    requires at + |data| <= dst.Length
    modifies dst
    ensures Copied(old(dst[..]), dst[..], at, data, 0, |data|)
  {
    forall i | 0 <= i < |data| { dst[at + i] := data[i]; }
  }

  /** memcpy between arrays. */
  method CopySlice(dst: array<byte>, at: nat, src: array<byte>, lo: nat, len: nat)
    requires at + len <= dst.Length && lo + len <= src.Length && dst != src
    modifies dst
    ensures Copied(old(dst[..]), dst[..], at, src[..], lo, len)
  {
    forall i | 0 <= i < len { dst[at + i] := src[lo + i]; }
  }

  // Multiples

  /** `n` is a whole number of pieces of length `k`. */
  ghost predicate Pieces(n: int, k: int)
    decreases n
  {
    n == 0 || (n >= k > 0 && Pieces(n - k, k))
  }

  lemma {:induction false} PiecesOfProduct(q: nat, k: int)
    requires k > 0
    ensures Pieces(q * k, k)
  {
    if q > 0 {
      PiecesOfProduct(q - 1, k);
      assert q * k - k == (q - 1) * k;
    } else {
      assert q * k == 0;
    }
  }

  /** Blocks that are whole pieces make whole pieces. */
  lemma {:induction false} BlocksArePieces(q: nat, m: nat, k: int)
    requires k > 0 && m % k == 0
    ensures Pieces(q * m, k)
  {
    var j := m / k;
    assert q * m == (q * j) * k;
    PiecesOfProduct(q * j, k);
  }
}
