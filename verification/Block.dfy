/** Block devices and their partitions (src/include/block/block.h, src/driver/block/block.c). */
module Block {
  import opened Arith
  import opened Medium
  import opened SpiNor

  /** How much of [offset, offset + length) a device of the given capacity has, in 64-bit
      arithmetic that wraps around. */
  function Available(cap: nat, offset: nat, length: nat): nat
    requires cap < U64 && offset < U64 && length < U64
  {
    if Wrapped(offset + length) > cap then Wrapped(cap - offset) else length
  }

  /** A sum or difference of two 64-bit values, wrapped around. */
  function Wrapped(x: int): (r: nat)
    requires -U64 < x < 2 * U64
    ensures r < U64 && r == x % U64
  {
    if x < 0 then x + U64 else if x >= U64 then x - U64 else x
  }

  /** The requests that are clamped to the device: those that start in it and do not wrap around. */
  predicate Clamps(cap: nat, offset: nat, length: nat) {
    offset <= cap && offset + length < U64
  }

  /** The clamp keeps a request inside the device exactly if it starts there and does not wrap
      around, and then it cuts the request off at the end of the device. */
  lemma AvailableStaysInside(cap: nat, offset: nat, length: nat)
    requires cap < U64 && offset < U64 && length < U64
    ensures offset + Available(cap, offset, length) <= cap <==> Clamps(cap, offset, length)
    ensures Clamps(cap, offset, length) ==>
      Available(cap, offset, length) == if offset + length <= cap then length else cap - offset
  {
  }

  /** What reaches the parent of a partition: where it starts there, and how long it is. */
  datatype Request = Request(start: nat, len: nat)

  function PassedOn(at: nat, cap: nat, offset: nat, length: nat): Request
    requires at < U64 && cap < U64 && offset < U64 && length < U64
  {
    Request(Wrapped(at + offset), Available(cap, offset, length))
  }

  /** A request to a partition at `at` that reaches a parent of `total` bytes and lies within it stays
      within the partition if and only if it is clamped or empty; otherwise it starts in front of it. */
  lemma StaysInside(at: nat, cap: nat, offset: nat, length: nat, total: nat)
    requires at + cap <= total <= MAX_LENGTH && offset < U64 && length < U64
    requires var p := PassedOn(at, cap, offset, length); p.len > 0 ==> p.start + p.len <= total
    ensures var p := PassedOn(at, cap, offset, length);
      && (p.len == 0 || (at <= p.start && p.start + p.len <= at + cap) <==> p.len == 0 || Clamps(cap, offset, length))
      && (p.len > 0 && !Clamps(cap, offset, length) ==> p.start < at)
  {
  }

  /** A request past the end of a partition of 10 bytes at 100 is passed on as one of nearly 2^64 bytes
      in the middle of what comes behind it; and one of 8 bytes that wraps around, as the last four bytes
      in front of the partition and its first four. */
  lemma PastTheEnd()
    ensures PassedOn(100, 10, 20, 1) == Request(120, U64 - 10) && PassedOn(100, 10, U64 - 4, 8) == Request(96, 8)
    ensures !Clamps(10, 20, 1) && !Clamps(10, U64 - 4, 8)
  {
  }

  /** A partition of a flash chip. */
  class SubBlock {
    const parent: Spinor
    const offset: nat
    const length: nat

    constructor (parent: Spinor, offset: nat, length: nat)
      ensures this.parent == parent && this.offset == offset && this.length == length
    {
      this.parent, this.offset, this.length := parent, offset, length;
    }

    ghost predicate Valid()
      reads parent.flash
    {
      parent.Valid() && offset + length <= parent.info.capacity
    }

    /** The bytes of the partition. */
    ghost function Contents(): seq<byte>
      requires Valid()
      reads parent.flash
    {
      parent.flash.mem[offset..offset + length]
    }

    /** What the parent is asked for; it has to have that, whatever the partition was asked for. */
    ghost predicate Served(off: nat, count: nat)
      reads parent.flash
    {
      Valid() && off < U64 && count < U64 &&
      var p := PassedOn(offset, length, off, count); p.len > 0 ==> p.start + p.len <= parent.info.capacity
    }

    method Read(dst: array<byte>, at: nat, off: nat, count: nat) returns (r: nat)
      requires Served(off, count) && dst != parent.buf && at + Available(length, off, count) <= dst.Length
      modifies parent.flash`busy, dst, parent.buf
      ensures r == Available(length, off, count)
      ensures r > 0 ==> Copied(old(dst[..]), dst[..], at, parent.flash.mem, Wrapped(off + offset), r)
      ensures r == 0 ==> dst[..] == old(dst[..])
      ensures Clamps(length, off, count) ==> off + r <= length && Copied(old(dst[..]), dst[..], at, Contents(), off, r)
    {
      var l := Available(length, off, count);
      StaysInside(offset, length, off, count, parent.info.capacity);
      if l > 0 {
        r := parent.Read(dst, at, Wrapped(off + offset), l);
      } else {
        r := 0;
      }
    }

    /** Writing through a partition changes what is passed on to the chip and nothing else of it; that is
        a range of the partition if the request is clamped. */
    method Write(src: array<byte>, at: nat, off: nat, count: nat) returns (r: nat)
      requires Served(off, count) && src != parent.buf && at + Available(length, off, count) <= src.Length
      modifies parent.flash, parent.buf
      ensures Valid() && r == Available(length, off, count)
      ensures r > 0 ==> Copied(old(parent.flash.mem), parent.flash.mem, Wrapped(off + offset), src[..], at, r)
      ensures r == 0 ==> parent.flash.mem == old(parent.flash.mem)
      ensures Clamps(length, off, count) ==>
        off + r <= length && Copied(old(Contents()), Contents(), off, src[..], at, r)
    {
      var l := Available(length, off, count);
      StaysInside(offset, length, off, count, parent.info.capacity);
      if l > 0 {
        r := parent.Write(src, at, Wrapped(off + offset), l);
      } else {
        r := 0;
      }
    }
  }

  /** A write to a partition leaves all that lies outside it alone, even inside one erase block, if and
      only if it is clamped or empty; so partitions that do not overlap are then isolated from each other.
      Otherwise the byte at which it starts lies in front of the partition. */
  method WriteIsIsolated(a: SubBlock, b: SubBlock, src: array<byte>, at: nat, off: nat, count: nat) returns (r: nat)
    requires b.Valid() && a.parent == b.parent && (a.offset + a.length <= b.offset || b.offset + b.length <= a.offset)
    requires a.Served(off, count) && src != a.parent.buf && at + Available(a.length, off, count) <= src.Length
    modifies a.parent.flash, a.parent.buf
    ensures a.Valid() && b.Valid()
    ensures r == 0 || Clamps(a.length, off, count) ==> b.Contents() == old(b.Contents())
    ensures r == 0 || Clamps(a.length, off, count) ==>
      forall i :: 0 <= i < |a.parent.flash.mem| && !(a.offset <= i < a.offset + a.length) ==>
        a.parent.flash.mem[i] == old(a.parent.flash.mem)[i]
    ensures r > 0 && !Clamps(a.length, off, count) ==>
      var start := Wrapped(off + a.offset); start < a.offset && a.parent.flash.mem[start] == src[at]
  {
    StaysInside(a.offset, a.length, off, count, a.parent.info.capacity);
    r := a.Write(src, at, off, count);
  }
}
