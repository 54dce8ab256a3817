/** Byte access to an SD/MMC card through block transfers (src/driver/sd/sdcard.c). */
module Sdcard {
  import opened Arith
  import opened Medium

  /** How a write that may break off has left the medium: of the `len` bytes meant to come to `at`
      from `s` on, the first `done` have, and each of the others either has or is as before; the
      rest of the medium is as before. */
  ghost predicate Merged(m: seq<byte>, m': seq<byte>, at: int, s: seq<byte>, lo: int, len: int, done: int) {
    && 0 <= at && 0 <= lo && 0 <= done <= len && at + len <= |m| == |m'| && lo + len <= |s|
    && forall i {:trigger m'[i]} :: 0 <= i < |m| ==>
      if at <= i < at + len then m'[i] == s[lo + i - at] || (m'[i] == m[i] && i >= at + done)
      else m'[i] == m[i]
  }

  /** A write that has not broken off. */
  lemma MergedWhole(m: seq<byte>, m': seq<byte>, at: int, s: seq<byte>)
    requires Merged(m, m', at, s, 0, |s|, |s|)
    ensures m' == Overwrite(m, at, s)
  {
    CopiedIsOverwrite(m, m', at, s, 0, |s|);
    assert s[0..|s|] == s;
  }

  lemma MergeNothing(m: seq<byte>, at: int, s: seq<byte>, lo: int)
    requires 0 <= at <= |m| && 0 <= lo <= |s|
    ensures Merged(m, m, at, s, lo, 0, 0)
  {
  }

  /** A complete write and the write after it. */
  lemma MergeOn(m: seq<byte>, m1: seq<byte>, m2: seq<byte>, at: int, s: seq<byte>, lo: int, len1: int, len2: int,
      done2: int)
    requires Merged(m, m1, at, s, lo, len1, len1) && Merged(m1, m2, at + len1, s, lo + len1, len2, done2)
    ensures Merged(m, m2, at, s, lo, len1 + len2, len1 + done2)
  {
  }

  /** A write that breaks off counts for a longer one that breaks off there. */
  lemma MergeWithin(m: seq<byte>, m': seq<byte>, at: int, s: seq<byte>, lo: int, len: int, done: int, more: int,
      fewer: int)
    requires Merged(m, m', at, s, lo, len, done) && len <= more && at + more <= |m| && lo + more <= |s| &&
      0 <= fewer <= done
    ensures Merged(m, m', at, s, lo, more, fewer)
  {
  }

  /** Writing back a block of which a part was patched. */
  lemma MergePatch(m: seq<byte>, m': seq<byte>, base: int, size: int, b: seq<byte>, b': seq<byte>, at: int,
      s: seq<byte>, p: int, len: int, done: int)
    requires size <= |b| == |b'| && 0 <= base && base + size <= |m| && at + len <= size && 0 <= done <= len
    requires forall i {:trigger b[i]} :: 0 <= i < size ==> b[i] == m[base + i]
    requires Copied(b, b', at, s, p, len) && Merged(m, m', base, b', 0, size, if done == len then size else 0)
    ensures Merged(m, m', base + at, s, p, len, if done == len then len else 0)
  {
    forall i | 0 <= i < |m|
      ensures if base + at <= i < base + at + len then m'[i] == s[p + i - base - at] || (m'[i] == m[i] && done < len)
        else m'[i] == m[i]
    {
      if base <= i < base + size { assert b'[i - base] == if at <= i - base < at + len then s[p + i - base - at]
        else b[i - base]; }
    }
  }

  /** The card.  Any command may fail; a write that fails has written some of its data, a read
      that fails leaves anything in the buffer. */
  class Card {
    const blockLength: nat
    const highCapacity: bool
    /** On such a host a data command is over only when the card is ready again. */
    const isSpi: bool
    /** Which commands fail, the waits for the card to settle among them. */
    const faults: seq<bool>
    /** How many commands there have been. */
    var turn: nat
    var mem: seq<byte>
    /** A multiple-block transfer has not been stopped yet. */
    var streaming: bool
    /** A data command has left the card at work; until it has been waited for it takes neither data nor
        stop commands. */
    var busy: bool
    /** The most bytes that a command has been asked to move. */
    ghost var longest: nat

    constructor (blockLength: nat, highCapacity: bool, isSpi: bool, faults: seq<bool>, mem: seq<byte>)
      ensures this.blockLength == blockLength && this.highCapacity == highCapacity && this.isSpi == isSpi
      ensures this.faults == faults && this.mem == mem && Ready() && turn == longest == 0
    {
      this.blockLength, this.highCapacity, this.isSpi, this.faults := blockLength, highCapacity, isSpi, faults;
      this.mem, streaming, busy, turn, longest := mem, false, false, 0, 0;
    }

    /** The card takes the next command. */
    predicate Ready()
      reads this
    {
      !streaming && !busy
    }

    /** No command has been asked to move more than 127 blocks. */
    ghost predicate Short()
      reads this
    {
      longest <= 127 * blockLength
    }

    predicate Fails(k: nat) {
      k < |faults| && faults[k]
    }

    /** None of the commands from `a` to `b` fails. */
    predicate Flawless(a: nat, b: nat) {
      forall k :: a <= k < b ==> !Fails(k)
    }

    /** The capacity is whole blocks, and every block has an address of 32 bits. */
    ghost predicate Valid()
      reads this
    {
      && 0 < blockLength <= 512 && |mem| % blockLength == 0
      && if highCapacity then blockLength == 512 && |mem| <= 512 * U32 else |mem| <= U32
    }

    /** Where the argument of a command points: cards of high capacity count in blocks, others in bytes. */
    function Address(arg: nat): nat {
      if highCapacity then 512 * arg else arg
    }

    /** How many bytes a command moves: the single-block commands move one block. */
    function Moved(multiple: bool, n: nat): nat {
      if multiple then n else blockLength
    }

    method WriteData(multiple: bool, arg: nat, s: array<byte>, lo: nat, n: nat) returns (ok: bool)
      requires Valid() && Moved(multiple, n) <= n && Address(arg) + n <= |mem| && lo + n <= s.Length
      modifies this`mem, this`streaming, this`busy, this`turn, this`longest
      ensures Valid()
      ensures Merged(old(mem), mem, Address(arg), s[..], lo, Moved(multiple, n), if ok then Moved(multiple, n) else 0)
      ensures turn == old(turn) + 1 && (ok <==> old(Ready()) && !Fails(old(turn)))
      ensures streaming == (multiple || old(streaming)) && busy == !isSpi
      ensures longest == if n > old(longest) then n else old(longest)
    {
      hide Merged, Overwrite;
      var len, a := Moved(multiple, n), Address(arg);
      var part: int := *;
      ok := Ready() && !Fails(turn);
      streaming, busy, turn := multiple || streaming, !isSpi, turn + 1;
      longest := if n > longest then n else longest;
      var done := if ok then len else if 0 <= part <= len then part else 0;
      PartStored(mem, a, s[..], lo, len, done, ok);
      assert s[..][lo..lo + done] == s[lo..lo + done];
      mem := Overwrite(mem, a, s[lo..lo + done]);
    }

    method ReadData(multiple: bool, arg: nat, d: array<byte>, lo: nat, n: nat) returns (ok: bool)
      requires Valid() && Moved(multiple, n) <= n && Address(arg) + n <= |mem| && lo + n <= d.Length
      modifies this`streaming, this`busy, this`turn, this`longest, d
      ensures Filled(old(d[..]), d[..], lo, mem, Address(arg), Moved(multiple, n), if ok then Moved(multiple, n) else 0)
      ensures turn == old(turn) + 1 && (ok <==> old(Ready()) && !Fails(old(turn)))
      ensures streaming == (multiple || old(streaming)) && busy == !isSpi
      ensures longest == if n > old(longest) then n else old(longest)
    {
      var len, a := Moved(multiple, n), Address(arg);
      var noise: byte := *;
      ok := Ready() && !Fails(turn);
      streaming, busy, turn := multiple || streaming, !isSpi, turn + 1;
      longest := if n > longest then n else longest;
      forall i | 0 <= i < len { d[lo + i] := if ok then mem[a + i] else noise; }
    }

    /** Waits for the card to be ready again, for so many retries. */
    method Settle() returns (ok: bool)
      modifies this`busy, this`turn
      ensures turn == old(turn) + 1 && (ok <==> !Fails(old(turn))) && busy == (old(busy) && !ok)
    {
      ok := !Fails(turn);
      busy, turn := busy && !ok, turn + 1;
    }

    method StopTransmission() returns (ok: bool)
      modifies this`streaming, this`turn
      ensures turn == old(turn) + 1 && (ok <==> !busy && !Fails(old(turn)))
      ensures streaming == (old(streaming) && !ok)
    {
      ok := !busy && !Fails(turn);
      streaming, turn := streaming && !ok, turn + 1;
    }
  }

  /** What a read that may break off leaves in a buffer: of the `len` bytes meant to come to `at`,
      the first `done` are right, and the rest of the buffer is as before. */
  ghost predicate Filled(d: seq<byte>, d': seq<byte>, at: int, m: seq<byte>, lo: int, len: int, done: int) {
    && 0 <= at && 0 <= lo && 0 <= done <= len && at + len <= |d| == |d'| && lo + len <= |m|
    && forall i {:trigger d'[i]} :: 0 <= i < |d| && !(at + done <= i < at + len) ==>
      d'[i] == if at <= i < at + done then m[lo + i - at] else d[i]
  }

  lemma FillNothing(d: seq<byte>, at: int, m: seq<byte>, lo: int)
    requires 0 <= at <= |d| && 0 <= lo <= |m|
    ensures Filled(d, d, at, m, lo, 0, 0)
  {
  }

  lemma FillOn(d: seq<byte>, d1: seq<byte>, d2: seq<byte>, at: int, m: seq<byte>, lo: int, len1: int, len2: int,
      done2: int)
    requires Filled(d, d1, at, m, lo, len1, len1) && Filled(d1, d2, at + len1, m, lo + len1, len2, done2)
    ensures Filled(d, d2, at, m, lo, len1 + len2, len1 + done2)
  {
  }

  lemma FillWithin(d: seq<byte>, d': seq<byte>, at: int, m: seq<byte>, lo: int, len: int, done: int, more: int,
      fewer: int)
    requires Filled(d, d', at, m, lo, len, done) && len <= more && at + more <= |d| && lo + more <= |m| &&
      0 <= fewer <= done
    ensures Filled(d, d', at, m, lo, more, fewer)
  {
  }

  /** A byte of the medium that has been read whole into the start of the block buffer. */
  ghost predicate Holds(b: seq<byte>, m: seq<byte>, base: int, size: int) {
    0 <= base && base + size <= |m| && size <= |b| && forall i {:trigger b[i]} :: 0 <= i < size ==> b[i] == m[base + i]
  }

  lemma FilledHolds(b: seq<byte>, b': seq<byte>, m: seq<byte>, base: int, size: int)
    requires Filled(b, b', 0, m, base, size, size)
    ensures Holds(b', m, base, size)
  {
  }

  lemma FillThrough(b: seq<byte>, size: int, d: seq<byte>, d': seq<byte>, p: int, m: seq<byte>, base: int, at: int,
      len: int)
    requires Holds(b, m, base, size) && Copied(d, d', p, b, at, len) && at + len <= size
    ensures Filled(d, d', p, m, base + at, len, len)
  {
  }

  /** A write of which the first `done` bytes have been stored, if it counts as complete just when it is. */
  lemma PartStored(m: seq<byte>, at: int, s: seq<byte>, lo: int, len: int, done: int, ok: bool)
    requires 0 <= at && 0 <= lo && 0 <= done <= len && at + len <= |m| && lo + len <= |s| && (ok ==> done == len)
    ensures Merged(m, Overwrite(m, at, s[lo..lo + done]), at, s, lo, len, if ok then len else 0)
  {
  }

  /** The driver of a card behind a host controller; `buf` is its block buffer. */
  class SdcardBlock {
    const card: Card
    const isSpi: bool
    const buf: array<byte>

    constructor (card: Card, isSpi: bool)
      requires card.Valid() && card.isSpi == isSpi
      ensures Valid() && this.card == card && fresh(buf)
    {
      this.card, this.isSpi := card, isSpi;
      buf := new byte[512];
    }

    ghost predicate Valid()
      reads card
    {
      card.Valid() && card.isSpi == isSpi && buf.Length == 512
    }

    /** The argument of a command for block `start`, in 32 bits. */
    function Argument(start: nat): nat {
      (if card.highCapacity then start else start * card.blockLength) % U32
    }

    /** The command reaches the block that is meant. */
    lemma ArgumentReaches(start: nat, base: nat)
      requires card.Valid() && base == start * card.blockLength && base < |card.mem|
      ensures card.Address(Argument(start)) == base
    {
      if card.highCapacity {
        assert base == start * 512;
      }
    }

    method MmcWriteBlocks(s: array<byte>, lo: nat, start: nat, blkcnt: nat, ghost base: nat, ghost n: nat)
      returns (r: nat)
      requires Valid() && blkcnt > 0 && base == start * card.blockLength && n == blkcnt * card.blockLength
      requires base + n <= |card.mem| && lo + n <= s.Length
      modifies card
      ensures Valid() && (r == 0 || r == blkcnt)
      ensures Merged(old(card.mem), card.mem, base, s[..], lo, n, if r == 0 then 0 else n)
      ensures old(card.turn) < card.turn
      ensures old(card.Ready()) ==> Came(old(card.turn), r > 0)
      ensures blkcnt <= 127 && old(card.Short()) ==> card.Short()
    {
      var multiple := blkcnt > 1;
      BlocksFit(blkcnt, card.blockLength);
      ArgumentReaches(start, base);
      var ok := card.WriteData(multiple, Argument(start), s, lo, blkcnt * card.blockLength);
      MergeWithin(old(card.mem), card.mem, base, s[..], lo, n, if ok then n else 0, n, 0);
      if !ok {
        return 0;
      }
      if !isSpi {
        var settled := card.Settle();
        if !settled {
          return 0;
        }
      }
      if multiple {
        var stopped := card.StopTransmission();
        if !stopped {
          return 0;
        }
      }
      r := blkcnt;
    }

    method MmcReadBlocks(d: array<byte>, lo: nat, start: nat, blkcnt: nat, ghost base: nat, ghost n: nat)
      returns (r: nat)
      requires Valid() && blkcnt > 0 && base == start * card.blockLength && n == blkcnt * card.blockLength
      requires base + n <= |card.mem| && lo + n <= d.Length
      modifies card`streaming, card`busy, card`turn, card`longest, d
      ensures r == 0 || r == blkcnt
      ensures Filled(old(d[..]), d[..], lo, card.mem, base, n, if r == 0 then 0 else n)
      ensures old(card.turn) < card.turn
      ensures old(card.Ready()) ==> Came(old(card.turn), r > 0)
      ensures blkcnt <= 127 && old(card.Short()) ==> card.Short()
    {
      var multiple := blkcnt > 1;
      BlocksFit(blkcnt, card.blockLength);
      ArgumentReaches(start, base);
      var ok := card.ReadData(multiple, Argument(start), d, lo, blkcnt * card.blockLength);
      FillWithin(old(d[..]), d[..], lo, card.mem, base, n, if ok then n else 0, n, 0);
      if !ok {
        return 0;
      }
      if !isSpi {
        var settled := card.Settle();
        if !settled {
          return 0;
        }
      }
      if multiple {
        var stopped := card.StopTransmission();
        if !stopped {
          return 0;
        }
      }
      r := blkcnt;
    }

    /** A transfer that began with command `from` has come to an end: it succeeded exactly if no command
        failed, and then the card is ready for the next one. */
    ghost predicate Came(from: nat, ok: bool)
      reads card
    {
      (ok <==> card.Flawless(from, card.turn)) && (ok ==> card.Ready())
    }

    /** Writes whole blocks, at most 127 with a command. */
    method BlkWrite(s: array<byte>, lo: nat, blkno: nat, blkcnt: nat, ghost base: nat, ghost n: nat) returns (r: nat)
      requires Valid() && base == blkno * card.blockLength && n == blkcnt * card.blockLength
      requires base + n <= |card.mem| && lo + n <= s.Length
      modifies card
      ensures Valid() && (r == 0 || r == blkcnt)
      ensures Merged(old(card.mem), card.mem, base, s[..], lo, n, if r == blkcnt then n else 0)
      ensures old(card.Ready()) ==> Came(old(card.turn), r == blkcnt)
      ensures old(card.turn) <= card.turn && (old(card.Short()) ==> card.Short())
    {
      var k := card.blockLength;
      var blks, no, p := blkcnt, blkno, lo;
      ghost var m, done := card.mem, 0;
      MergeNothing(m, base, s[..], lo);
      while blks > 0
        invariant Valid() && 0 <= blks <= blkcnt && no + blks == blkno + blkcnt
        invariant p == lo + done && base + done == no * k && done + blks * k == n
        invariant old(card.turn) <= card.turn && (old(card.Ready()) ==> Came(old(card.turn), true))
        invariant old(card.Short()) ==> card.Short()
        invariant Merged(m, card.mem, base, s[..], lo, done, done)
      {
        var cnt := if blks > 127 then 127 else blks;
        SplitBlocks(blks, cnt, k);
        SplitBlocks(no + cnt, cnt, k);
        ghost var before := card.mem;
        var got := MmcWriteBlocks(s, p, no, cnt, base + done, cnt * k);
        MergeOn(m, before, card.mem, base, s[..], lo, done, cnt * k, if got == 0 then 0 else cnt * k);
        if got != cnt {
          MergeWithin(m, card.mem, base, s[..], lo, done + cnt * k, done, n, 0);
          return 0;
        }
        blks, no, p := blks - cnt, no + cnt, p + cnt * k;
        done := done + cnt * k;
      }
      r := blkcnt;
    }

    /** Reads whole blocks, at most 127 with a command. */
    method BlkRead(d: array<byte>, lo: nat, blkno: nat, blkcnt: nat, ghost base: nat, ghost n: nat) returns (r: nat)
      requires Valid() && base == blkno * card.blockLength && n == blkcnt * card.blockLength
      requires base + n <= |card.mem| && lo + n <= d.Length
      modifies card`streaming, card`busy, card`turn, card`longest, d
      ensures r == 0 || r == blkcnt
      ensures Filled(old(d[..]), d[..], lo, card.mem, base, n, if r == blkcnt then n else 0)
      ensures old(card.Ready()) ==> Came(old(card.turn), r == blkcnt)
      ensures old(card.turn) <= card.turn && (old(card.Short()) ==> card.Short())
    {
      var k := card.blockLength;
      var blks, no, p := blkcnt, blkno, lo;
      ghost var d0, done := d[..], 0;
      FillNothing(d0, lo, card.mem, base);
      while blks > 0
        invariant 0 <= blks <= blkcnt && no + blks == blkno + blkcnt
        invariant p == lo + done && base + done == no * k && done + blks * k == n
        invariant old(card.turn) <= card.turn && (old(card.Ready()) ==> Came(old(card.turn), true))
        invariant old(card.Short()) ==> card.Short()
        invariant Filled(d0, d[..], lo, card.mem, base, done, done)
      {
        var cnt := if blks > 127 then 127 else blks;
        SplitBlocks(blks, cnt, k);
        SplitBlocks(no + cnt, cnt, k);
        ghost var before := d[..];
        var got := MmcReadBlocks(d, p, no, cnt, base + done, cnt * k);
        FillOn(d0, before, d[..], lo, card.mem, base, done, cnt * k, if got == 0 then 0 else cnt * k);
        if got != cnt {
          FillWithin(d0, d[..], lo, card.mem, base, done + cnt * k, done, n, 0);
          return 0;
        }
        blks, no, p := blks - cnt, no + cnt, p + cnt * k;
        done := done + cnt * k;
      }
      r := blkcnt;
    }

    /** One block through the buffer: reads it, patches a part of it and writes it back. */
    method PatchBlock(s: array<byte>, p: nat, blkno: nat, at: nat, len: nat, ghost base: nat) returns (ok: bool)
      requires Valid() && s != buf && base == blkno * card.blockLength && base + card.blockLength <= |card.mem|
      requires at + len <= card.blockLength && p + len <= s.Length
      modifies card, buf
      ensures Valid()
      ensures Merged(old(card.mem), card.mem, base + at, s[..], p, len, if ok then len else 0)
      ensures old(card.turn) <= card.turn && (old(card.Ready()) ==> Came(old(card.turn), ok))
    {
      ghost var m, k := card.mem, card.blockLength;
      ghost var b0 := buf[..];
      var got := BlkRead(buf, 0, blkno, 1, base, k);
      if got != 1 {
        return false;
      }
      ghost var b := buf[..];
      FilledHolds(b0, b, m, base, k);
      CopySlice(buf, at, s, p, len);
      ghost var b' := buf[..];
      got := BlkWrite(buf, 0, blkno, 1, base, k);
      ok := got == 1;
      MergePatch(m, card.mem, base, k, b, b', at, s[..], p, len, if ok then len else 0);
    }

    method ReadPart(d: array<byte>, p: nat, blkno: nat, at: nat, len: nat, ghost base: nat) returns (ok: bool)
      requires Valid() && d != buf && base == blkno * card.blockLength && base + card.blockLength <= |card.mem|
      requires at + len <= card.blockLength && p + len <= d.Length
      modifies card`streaming, card`busy, card`turn, card`longest, buf, d
      ensures Filled(old(d[..]), d[..], p, card.mem, base + at, len, if ok then len else 0)
      ensures old(card.turn) <= card.turn && (old(card.Ready()) ==> Came(old(card.turn), ok))
    {
      ghost var k := card.blockLength;
      ghost var b0, d0 := buf[..], d[..];
      var got := BlkRead(buf, 0, blkno, 1, base, k);
      if got != 1 {
        return false;
      }
      FilledHolds(b0, buf[..], card.mem, base, k);
      CopySlice(d, p, buf, at, len);
      FillThrough(buf[..], k, d0, d[..], p, card.mem, base, at, len);
      ok := true;
    }

    /** The block of an offset and the offset in it. */
    method Locate(offset: nat) returns (blkno: nat, tmp: nat, ghost start: nat)
      requires Valid() && offset <= |card.mem|
      ensures start == blkno * card.blockLength && start + tmp == offset && tmp < card.blockLength
      ensures start + card.blockLength == (blkno + 1) * card.blockLength
      ensures tmp > 0 ==> start + card.blockLength <= |card.mem|
    {
      blkno, tmp := offset / card.blockLength, offset % card.blockLength;
      start := offset - tmp;
      BlockStart(offset, card.blockLength, |card.mem|);
    }

    /** How many whole blocks a length has, and how many bytes these are. */
    method Whole(left: nat, ghost blkno: nat) returns (tmp: nat, len: nat)
      requires Valid()
      ensures len == tmp * card.blockLength && len <= left < len + card.blockLength
      ensures blkno * card.blockLength + len == (blkno + tmp) * card.blockLength
    {
      var k := card.blockLength;
      tmp := left / k;
      len := tmp * k;
      WholeBlocks(left, k);
      SumBlocks(blkno, tmp, k);
    }

    /** Writes from the start of a block on: whole blocks and then the start of one more. */
    method WriteAligned(s: array<byte>, p: nat, blkno: nat, left: nat, ghost base: nat) returns (ret: nat)
      requires Valid() && s != buf && (left > 0 ==> base == blkno * card.blockLength)
      requires base + left <= |card.mem| && p + left <= s.Length
      modifies card, buf
      ensures Valid() && Merged(old(card.mem), card.mem, base, s[..], p, left, ret)
      ensures old(card.turn) <= card.turn && (old(card.Ready()) ==> Came(old(card.turn), ret == left))
    {
      hide Merged;
      var blksz := card.blockLength;
      ghost var m, cap := card.mem, |card.mem|;
      MergeNothing(m, base, s[..], p);
      var tmp, len := Whole(left, blkno);
      ret := 0;
      if tmp > 0 {
        var got := BlkWrite(s, p, blkno, tmp, base, len);
        MergeWithin(m, card.mem, base, s[..], p, len, if got == tmp then len else 0, left, 0);
        if got != tmp {
          return;
        }
        ret := len;
      }
      ghost var m1 := card.mem;
      if left - len > 0 {
        BlockFits(base + len, blkno + tmp, blksz, cap);
        var ok := PatchBlock(s, p + len, blkno + tmp, 0, left - len, base + len);
        MergeOn(m, m1, card.mem, base, s[..], p, len, left - len, if ok then left - len else 0);
        if ok {
          ret := left;
        }
      }
    }

    /** Writes what of a range lies in the block that it starts inside of. */
    method WriteHead(s: array<byte>, blkno: nat, tmp: nat, count: nat, ghost base: nat) returns (ok: bool, len: nat)
      requires Valid() && s != buf && s.Length == count && base + tmp + count <= |card.mem|
      requires base == blkno * card.blockLength && 0 < tmp < card.blockLength && base + card.blockLength <= |card.mem|
      modifies card, buf
      ensures Valid() && len == (if count < card.blockLength - tmp then count else card.blockLength - tmp)
      ensures Merged(old(card.mem), card.mem, base + tmp, s[..], 0, len, if ok then len else 0)
      ensures !ok ==> Merged(old(card.mem), card.mem, base + tmp, s[..], 0, count, 0)
      ensures old(card.turn) <= card.turn && (old(card.Ready()) ==> Came(old(card.turn), ok))
    {
      ghost var m := card.mem;
      len := if count < card.blockLength - tmp then count else card.blockLength - tmp;
      ok := PatchBlock(s, 0, blkno, tmp, len, base);
      if !ok { MergeWithin(m, card.mem, base + tmp, s[..], 0, len, 0, count, 0); }
    }

    /** Writes `count` bytes at `offset`: the bytes that are counted are on the card, none outside the
        range has changed, and each of the others in the range is either new or as before.  All bytes
        are counted exactly if no command fails. */
    method Write(s: array<byte>, offset: nat, count: nat) returns (ret: nat)
      requires Valid() && s != buf && s.Length == count && offset + count <= |card.mem|
      modifies card, buf
      ensures Valid() && Merged(old(card.mem), card.mem, offset, s[..], 0, count, ret)
      ensures ret == count ==> card.mem == Overwrite(old(card.mem), offset, s[..])
      ensures old(card.turn) <= card.turn
      ensures old(card.Ready()) && card.Flawless(old(card.turn), card.turn) ==> ret == count && card.Ready()
      ensures old(card.Ready()) && ret == count > 0 ==> card.Flawless(old(card.turn), card.turn)
    {
      var blkno, tmp, start := Locate(offset);
      ghost var m := card.mem;
      if tmp > 0 {
        var ok, len := WriteHead(s, blkno, tmp, count, start);
        if !ok {
          if count == 0 { MergedWhole(m, card.mem, offset, s[..]); }
          return 0;
        }
        ghost var m1 := card.mem;
        ret := WriteAligned(s, len, blkno + 1, count - len, offset + len);
        MergeOn(m, m1, card.mem, offset, s[..], 0, len, count - len, ret);
        ret := len + ret;
      } else {
        ret := WriteAligned(s, 0, blkno, count, offset);
      }
      if ret == count { MergedWhole(m, card.mem, offset, s[..]); }
    }

    /** Reads from the start of a block on: whole blocks and then the start of one more. */
    method ReadAligned(d: array<byte>, p: nat, blkno: nat, left: nat, ghost base: nat) returns (ret: nat)
      requires Valid() && d != buf && (left > 0 ==> base == blkno * card.blockLength)
      requires base + left <= |card.mem| && p + left <= d.Length
      modifies card`streaming, card`busy, card`turn, card`longest, buf, d
      ensures Filled(old(d[..]), d[..], p, card.mem, base, left, ret)
      ensures old(card.turn) <= card.turn && (old(card.Ready()) ==> Came(old(card.turn), ret == left))
    {
      hide Filled;
      var blksz := card.blockLength;
      ghost var d0, cap := d[..], |card.mem|;
      FillNothing(d0, p, card.mem, base);
      var tmp, len := Whole(left, blkno);
      ret := 0;
      if tmp > 0 {
        var got := BlkRead(d, p, blkno, tmp, base, len);
        FillWithin(d0, d[..], p, card.mem, base, len, if got == tmp then len else 0, left, 0);
        if got != tmp {
          return;
        }
        ret := len;
      }
      ghost var d1 := d[..];
      if left - len > 0 {
        BlockFits(base + len, blkno + tmp, blksz, cap);
        var ok := ReadPart(d, p + len, blkno + tmp, 0, left - len, base + len);
        FillOn(d0, d1, d[..], p, card.mem, base, len, left - len, if ok then left - len else 0);
        if ok {
          ret := left;
        }
      }
    }

    /** Reads `count` bytes at `offset`: as many as are counted are those of the card. */
    method Read(d: array<byte>, offset: nat, count: nat) returns (ret: nat)
      requires Valid() && d != buf && d.Length == count && offset + count <= |card.mem|
      modifies card`streaming, card`busy, card`turn, card`longest, buf, d
      ensures Filled(old(d[..]), d[..], 0, card.mem, offset, count, ret)
      ensures ret == count ==> d[..] == card.mem[offset..offset + count]
      ensures old(card.turn) <= card.turn
      ensures old(card.Ready()) && card.Flawless(old(card.turn), card.turn) ==> ret == count && card.Ready()
      ensures old(card.Ready()) && ret == count > 0 ==> card.Flawless(old(card.turn), card.turn)
    {
      var blksz := card.blockLength;
      var blkno, tmp, start := Locate(offset);
      ghost var d0 := d[..];
      ret := 0;
      if tmp > 0 {
        var len := if count < blksz - tmp then count else blksz - tmp;
        var ok := ReadPart(d, 0, blkno, tmp, len, start);
        FillWithin(d0, d[..], 0, card.mem, offset, len, if ok then len else 0, count, 0);
        if !ok {
          return;
        }
        ghost var d1 := d[..];
        var more := ReadAligned(d, len, blkno + 1, count - len, offset + len);
        FillOn(d0, d1, d[..], 0, card.mem, offset, len, count - len, more);
        ret := len + more;
      } else {
        ret := ReadAligned(d, 0, blkno, count, offset);
      }
    }

    /** What a write counts, a read of the same range gives back as far as both have come. */
    method WriteThenRead(s: array<byte>, d: array<byte>, offset: nat) returns (wrote: nat, got: nat)
      requires Valid() && s != buf && d != buf && s != d && s.Length == d.Length && offset + s.Length <= |card.mem|
      modifies card, buf, d
      ensures wrote <= s.Length && got <= s.Length && s[..] == old(s[..])
      ensures forall i :: 0 <= i < wrote && i < got ==> d[i] == s[i]
      ensures old(card.Ready()) && card.Flawless(old(card.turn), card.turn) ==>
        wrote == got == s.Length && d[..] == s[..] && card.mem == Overwrite(old(card.mem), offset, s[..])
    {
      wrote := Write(s, offset, s.Length);
      got := Read(d, offset, d.Length);
      forall i | 0 <= i < wrote && i < got ensures d[i] == s[i] {
        assert d[..][i] == card.mem[offset + i];
      }
    }
  }

  /** The blocks that are left after `cnt` of them. */
  lemma SplitBlocks(blks: nat, cnt: nat, k: nat)
    requires cnt <= blks
    ensures blks * k == cnt * k + (blks - cnt) * k && (blks - cnt) * k >= 0 && cnt * k >= 0
  {
  }

  lemma SumBlocks(a: nat, b: nat, k: nat)
    ensures a * k + b * k == (a + b) * k
  {
  }

  /** The block around `offset` lies in a medium of whole blocks. */
  lemma BlockStart(offset: nat, k: nat, cap: nat)
    requires k > 0 && cap % k == 0 && offset <= cap
    ensures offset - offset % k == offset / k * k && offset - offset % k + k == (offset / k + 1) * k
    ensures offset % k > 0 ==> offset - offset % k + k <= cap
  {
    if offset % k > 0 { BlockFits(offset - offset % k, offset / k, k, cap); }
  }

  lemma BlockFits(base: nat, no: nat, k: nat, cap: nat)
    requires k > 0 && cap % k == 0 && base == no * k && base < cap
    ensures base + k <= cap
  {
    assert cap == cap / k * k;
    FactorBound(cap / k - no, k);
    assert (cap / k - no) * k == cap - base;
  }

  lemma WholeBlocks(left: nat, k: nat)
    requires k > 0
    ensures 0 <= left / k * k <= left < left / k * k + k
  {
  }

  lemma BlocksFit(blkcnt: nat, k: nat)
    requires blkcnt > 0
    ensures blkcnt == 1 ==> blkcnt * k == k
    ensures blkcnt * k >= k && (blkcnt <= 127 ==> blkcnt * k <= 127 * k)
  {
    assert blkcnt <= 127 ==> (127 - blkcnt) * k >= 0;
    assert blkcnt * k == (blkcnt - 1) * k + k;
    assert (blkcnt - 1) * k >= 0;
  }
}
