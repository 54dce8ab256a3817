/** SPI NOR flash as a block device (src/driver/block/blk-spinor.c). */
module SpiNor {
  import opened Arith
  import opened Medium

  const E4K := 4096
  const E32K := 32768
  const E64K := 65536
  const E256K := 262144
  const MAX_LENGTH := 0x7fffffff

  /** What detection finds out about a chip (`spinor_info_t`); an erase opcode of 0 means that the
      chip has no such command. */
  datatype Info = Info(capacity: nat, blksz: nat, readGranularity: nat, writeGranularity: nat, addressLength: nat,
                       erase4k: nat, erase32k: nat, erase64k: nat, erase256k: nat)
  {
    /** The block size that detection chooses: the smallest erase the chip knows. */
    function SmallestErase(): nat {
      if erase4k != 0 then E4K
      else if erase32k != 0 then E32K
      else if erase64k != 0 then E64K
      else if erase256k != 0 then E256K
      else 0
    }

    ghost predicate Valid() {
      && blksz == SmallestErase() != 0
      && capacity % blksz == 0 && capacity <= MAX_LENGTH
      && (addressLength == 3 || addressLength == 4) && (addressLength == 3 ==> capacity <= 0x100_0000)
      && readGranularity > 0 && blksz % readGranularity == 0
      && writeGranularity > 0 && blksz % writeGranularity == 0
    }

    predicate CanErase(size: nat) {
      (size == E4K && erase4k != 0) || (size == E32K && erase32k != 0) || (size == E64K && erase64k != 0) ||
        (size == E256K && erase256k != 0)
    }
  }

  /** The address bytes of a command, most significant first. */
  function AddressBytes(addr: nat, n: nat): (r: seq<nat>)
    ensures |r| == n && forall i :: 0 <= i < n ==> r[i] < 256
  {
    if n == 0 then [] else AddressBytes(addr / 256, n - 1) + [addr % 256]
  }

  function AddressOf(bytes: seq<nat>): nat {
    if bytes == [] then 0 else AddressOf(bytes[..|bytes| - 1]) * 256 + bytes[|bytes| - 1]
  }

  /** The chip sees the address that the driver meant, if it fits the address bytes. */
  lemma {:induction false} AddressRoundTrip(addr: nat, n: nat)
    requires addr < Pow256(n)
    ensures AddressOf(AddressBytes(addr, n)) == addr
  {
    if n > 0 {
      AddressRoundTrip(addr / 256, n - 1);
      var r := AddressBytes(addr, n);
      assert r[..n - 1] == AddressBytes(addr / 256, n - 1);
    }
  }

  lemma AddressFits(info: Info, addr: nat)
    requires info.Valid() && addr < info.capacity
    ensures AddressOf(AddressBytes(addr, info.addressLength)) == addr
  {
    assert Pow256(3) == 0x100_0000 by { assert Pow256(1) == 256 && Pow256(2) == 0x1_0000; }
    assert Pow256(4) == U32;
    AddressRoundTrip(addr, info.addressLength);
  }

  function Erased(n: nat): (r: seq<byte>)
    ensures |r| == n
  {
    seq(n, _ => 0xff as byte)
  }

  /** Programming can only clear bits. */
  function Programmed(cells: seq<byte>, data: seq<byte>): (r: seq<byte>)
    requires |cells| == |data|
    ensures |r| == |data|
  {
    seq(|data|, i requires 0 <= i < |data| => cells[i] & data[i])
  }

  lemma ProgramErased(data: seq<byte>)
    ensures Programmed(Erased(|data|), data) == data
  {
    forall i | 0 <= i < |data| ensures (0xff as byte) & data[i] == data[i] {
    }
  }

  /** The start of the erase block of the given size that holds an address. */
  function EraseBase(a: nat, size: nat): (base: nat)
    requires size > 0
    ensures base <= a && (a % size == 0 ==> base == a)
  {
    if a < size then 0 else a - a % size
  }

  /** Whether `n` bytes from `a` on lie in one page; pages of one byte are no limit. */
  predicate InPage(a: nat, n: nat, page: nat) {
    page == 1 || (page > 1 && a % page + n <= page)
  }

  /** The chip.  It drops an erase or program command that comes while it is busy or without a
      write enable before it, or whose address has not as many bytes as it expects, or that leaves its
      page; and a read while busy, or that leaves its page, returns anything. */
  class Flash {
    const addressLength: nat
    const readPage: nat
    const writePage: nat
    var mem: seq<byte>
    var writeEnabled: bool
    /** For how many more status reads the chip stays busy. */
    var busy: nat
    ghost var dropped: nat
    /** The ranges erased so far. */
    ghost var erases: seq<(int, int)>

    constructor (mem: seq<byte>, addressLength: nat, readPage: nat, writePage: nat)
      ensures this.mem == mem && this.addressLength == addressLength && dropped == 0 && erases == []
      ensures this.readPage == readPage && this.writePage == writePage
    {
      this.mem, this.addressLength, this.readPage, this.writePage := mem, addressLength, readPage, writePage;
      writeEnabled, busy, dropped, erases := false, 0, 0, [];
    }

    predicate Accepts(address: seq<nat>, busy: nat, writeEnabled: bool) {
      |address| == addressLength && busy == 0 && writeEnabled
    }

    method ReadStatus() returns (status: byte)
      modifies this`busy
      ensures status & 1 == 1 <==> old(busy) > 0
      ensures busy == if old(busy) > 0 then old(busy) - 1 else 0
    {
      status := if busy > 0 then 1 else 0;
      busy := if busy > 0 then busy - 1 else 0;
    }

    method WriteEnable()
      modifies this`writeEnabled
      ensures writeEnabled == (old(writeEnabled) || busy == 0)
    {
      if busy == 0 {
        writeEnabled := true;
      }
    }

    method Erase(size: nat, address: seq<nat>)
      requires size > 0
      modifies this
      ensures var base := EraseBase(AddressOf(address), size);
        if Accepts(address, old(busy), old(writeEnabled)) && base + size <= |old(mem)| then
          mem == Overwrite(old(mem), base, Erased(size)) && !writeEnabled && dropped == old(dropped) &&
            erases == old(erases) + [(base, size)]
        else
          mem == old(mem) && dropped == old(dropped) + 1 && erases == old(erases) && busy == old(busy) &&
            writeEnabled == old(writeEnabled)
    {
      var base := EraseBase(AddressOf(address), size);
      if Accepts(address, busy, writeEnabled) && base + size <= |mem| {
        mem := Overwrite(mem, base, Erased(size));
        writeEnabled := false;
        erases := erases + [(base, size)];
        busy := *;
      } else {
        dropped := dropped + 1;
      }
    }

    method Program(address: seq<nat>, data: seq<byte>)
      modifies this
      ensures var a := AddressOf(address);
        erases == old(erases) &&
        if Accepts(address, old(busy), old(writeEnabled)) && a + |data| <= |old(mem)| && InPage(a, |data|, writePage)
        then
          mem == Overwrite(old(mem), a, Programmed(old(mem)[a..a + |data|], data)) && !writeEnabled &&
            dropped == old(dropped)
        else
          mem == old(mem) && dropped == old(dropped) + 1 && busy == old(busy) && writeEnabled == old(writeEnabled)
    {
      var a := AddressOf(address);
      if Accepts(address, busy, writeEnabled) && a + |data| <= |mem| && InPage(a, |data|, writePage) {
        mem := Overwrite(mem, a, Programmed(mem[a..a + |data|], data));
        writeEnabled := false;
        busy := *;
      } else {
        dropped := dropped + 1;
      }
    }

    method Read(address: seq<nat>, count: nat) returns (data: seq<byte>)
      ensures |data| == count
      ensures var a := AddressOf(address);
        Accepts(address, busy, true) && a + count <= |mem| && InPage(a, count, readPage) ==> data == mem[a..a + count]
    {
      var a := AddressOf(address);
      if Accepts(address, busy, true) && a + count <= |mem| && InPage(a, count, readPage) {
        data := mem[a..a + count];
      } else {
        data := Erased(count);
      }
    }
  }

  /** The length of one read or program command: everything, capped, at byte granularity. */
  function Piece(cnt: nat, granularity: nat): nat {
    if granularity == 1 then (if cnt < MAX_LENGTH then cnt else MAX_LENGTH) else granularity
  }

  /** Pieces that start at the start of a page stay inside it, and the next one starts a page. */
  lemma PieceInPage(addr: nat, cnt: nat, page: nat)
    requires page > 0 && addr % page == 0
    ensures InPage(addr, Piece(cnt, page), page) && (addr + Piece(cnt, page)) % page == 0
  {
    if page > 1 {
      var q := addr / page;
      assert addr + page == (q + 1) * page;
      QuotientUnique(addr + page, page, q + 1, 0);
    }
  }

  lemma BlockStartsPage(info: Info, blkno: nat, page: nat)
    requires info.Valid() && page > 0 && info.blksz % page == 0
    ensures blkno * info.blksz >= 0 && blkno * info.blksz % page == 0
  {
    var k := info.blksz / page;
    assert info.blksz == k * page;
    assert blkno * (k * page) == (blkno * k) * page;
    ProductIsMultiple(blkno * k, page);
  }

  lemma PieceDivides(info: Info, total: nat, blkcnt: nat, granularity: nat)
    requires info.Valid() && total == blkcnt * info.blksz && total <= info.capacity
    requires granularity > 0 && info.blksz % granularity == 0
    ensures Pieces(total, Piece(total, granularity))
  {
    BlocksArePieces(blkcnt, info.blksz, granularity);
    assert Pieces(0, total);
  }

  /** The erase planner: the largest erase that is aligned at `addr` and not longer than what is
      left; 0 if there is none. */
  function EraseLength(info: Info, addr: nat, cnt: nat): nat {
    if info.erase256k != 0 && addr % E256K == 0 && cnt >= E256K then E256K
    else if info.erase64k != 0 && addr % E64K == 0 && cnt >= E64K then E64K
    else if info.erase32k != 0 && addr % E32K == 0 && cnt >= E32K then E32K
    else if info.erase4k != 0 && addr % E4K == 0 && cnt >= E4K then E4K
    else 0
  }

  /** The driver's state: the chip, what detection found out, and a one-block scratch buffer. */
  class Spinor {
    const flash: Flash
    const info: Info
    const buf: array<byte>

    constructor (flash: Flash, info: Info)
      requires info.Valid() && |flash.mem| == info.capacity && flash.addressLength == info.addressLength
      requires flash.readPage == info.readGranularity && flash.writePage == info.writeGranularity
      ensures this.flash == flash && this.info == info && fresh(buf) && Valid()
    {
      this.flash, this.info := flash, info;
      buf := new byte[info.blksz];
    }

    ghost predicate Valid()
      reads flash
    {
      && info.Valid() && |flash.mem| == info.capacity && flash.addressLength == info.addressLength
      && flash.readPage == info.readGranularity && flash.writePage == info.writeGranularity
      && buf.Length == info.blksz
    }

    method WaitForBusy()
      modifies flash`busy
      ensures flash.busy == 0
    {
      var status := flash.ReadStatus();
      while status & 1 == 1
        invariant status & 1 != 1 ==> flash.busy == 0
        decreases flash.busy, status & 1 == 1
      {
        status := flash.ReadStatus();
      }
    }

    method ReadPiece(dst: array<byte>, p: nat, addr: nat, len: nat)
      requires Valid() && addr + len <= info.capacity && p + len <= dst.Length && len > 0
      requires InPage(addr, len, info.readGranularity)
      modifies flash`busy, dst
      ensures Copied(old(dst[..]), dst[..], p, flash.mem, addr, len)
    {
      WaitForBusy();
      AddressFits(info, addr);
      var data := flash.Read(AddressBytes(addr, info.addressLength), len);
      CopyInto(dst, p, data);
      CopyThrough(data, len, old(dst[..]), dst[..], p, flash.mem, addr, 0, len);
    }

    /** The read loop, from address `base` for `total` bytes. */
    method ReadRange(dst: array<byte>, at: nat, base: nat, total: nat)
      requires Valid() && base + total <= info.capacity && at + total <= dst.Length
      requires Pieces(total, Piece(total, info.readGranularity)) && base % info.readGranularity == 0
      modifies flash`busy, dst
      ensures Copied(old(dst[..]), dst[..], at, flash.mem, base, total)
    {
      var addr, cnt, p := base, total, at;
      var len := Piece(cnt, info.readGranularity);
      ghost var done := 0;
      while cnt > 0
        invariant 0 <= done && addr == base + done && p == at + done && cnt == total - done && 0 <= cnt
        invariant Pieces(cnt, len) && addr % info.readGranularity == 0
        invariant Copied(old(dst[..]), dst[..], at, flash.mem, base, done)
      {
        PieceInPage(addr, total, info.readGranularity);
        ghost var d := dst[..];
        ReadPiece(dst, p, addr, len);
        CopyOn(old(dst[..]), d, dst[..], at, flash.mem, base, done, len);
        done := done + len;
        addr, p, cnt := addr + len, p + len, cnt - len;
      }
    }

    /** Reads whole blocks into `dst`, starting at index `at`. */
    method ReadBlocks(dst: array<byte>, at: nat, blkno: nat, blkcnt: nat) returns (r: int)
      requires Valid() && InDevice(info, blkno, blkcnt) && at + blkcnt * info.blksz <= dst.Length
      modifies flash`busy, dst
      ensures r == blkcnt
      ensures Copied(old(dst[..]), dst[..], at, flash.mem, blkno * info.blksz, blkcnt * info.blksz)
    {
      PieceDivides(info, blkcnt * info.blksz, blkcnt, info.readGranularity);
      BlockStartsPage(info, blkno, info.readGranularity);
      ReadRange(dst, at, blkno * info.blksz, blkcnt * info.blksz);
      r := blkcnt;
    }

    /** The erase loop: each step erases the largest aligned piece the chip can.  It returns false
        where the source returns 0. */
    method EraseRange(base: nat, total: nat) returns (ok: bool)
      requires Valid() && base + total <= info.capacity && base % info.blksz == 0 && total % info.blksz == 0
      requires flash.busy == 0
      modifies flash
      ensures ok && flash.busy == 0 && flash.dropped == old(flash.dropped)
      ensures flash.mem == Overwrite(old(flash.mem), base, Erased(total))
      ensures Within(old(flash.erases), flash.erases, base, base + total)
    {
      var addr, cnt := base, total;
      while cnt > 0
        invariant addr + cnt == base + total && addr >= base && cnt >= 0
        invariant addr % info.blksz == 0 && cnt % info.blksz == 0
        invariant flash.busy == 0 && flash.dropped == old(flash.dropped)
        invariant flash.mem == Overwrite(old(flash.mem), base, Erased(addr - base))
        invariant Within(old(flash.erases), flash.erases, base, base + total)
      {
        var len := EraseLength(info, addr, cnt);
        PlanStep(info, addr, cnt);
        if len == 0 {
          return false;
        }
        EraseOne(addr, len);
        OverwriteTwice(old(flash.mem), base, Erased(addr - base), Erased(len));
        assert Erased(addr - base) + Erased(len) == Erased(addr + len - base);
        addr, cnt := addr + len, cnt - len;
      }
      ok := true;
    }

    method EraseOne(addr: nat, len: nat)
      requires Valid() && addr + len <= info.capacity && len > 0 && addr % len == 0
      requires flash.busy == 0
      modifies flash
      ensures flash.busy == 0 && flash.dropped == old(flash.dropped)
      ensures flash.mem == Overwrite(old(flash.mem), addr, Erased(len))
      ensures flash.erases == old(flash.erases) + [(addr, len)]
    {
      AddressFits(info, addr);
      flash.WriteEnable();
      flash.Erase(len, AddressBytes(addr, info.addressLength));
      WaitForBusy();
    }

    method ProgramOne(addr: nat, data: seq<byte>)
      requires Valid() && addr + |data| <= info.capacity && |data| > 0 && flash.busy == 0
      requires InPage(addr, |data|, info.writeGranularity)
      modifies flash
      ensures flash.busy == 0 && flash.dropped == old(flash.dropped) && flash.erases == old(flash.erases)
      ensures flash.mem == Overwrite(old(flash.mem), addr, Programmed(old(flash.mem)[addr..addr + |data|], data))
    {
      AddressFits(info, addr);
      flash.WriteEnable();
      flash.Program(AddressBytes(addr, info.addressLength), data);
      WaitForBusy();
    }

    /** One piece of an erased range. */
    method ProgramPiece(piece: seq<byte>, addr: nat, ghost m: seq<byte>, ghost base: nat, ghost data: seq<byte>,
        ghost done: nat)
      requires Valid() && |m| == info.capacity && base + |data| <= info.capacity && addr == base + done &&
        flash.busy == 0
      requires |piece| > 0 && done + |piece| <= |data| && piece == data[done..done + |piece|]
      requires InPage(addr, |piece|, info.writeGranularity)
      requires flash.mem == HalfWritten(m, base, data, done)
      modifies flash
      ensures flash.busy == 0 && flash.dropped == old(flash.dropped) && flash.erases == old(flash.erases)
      ensures flash.mem == HalfWritten(m, base, data, done + |piece|)
    {
      hide Programmed, Overwrite;
      ProgramNext(m, base, data, done, flash.mem, addr, piece);
      ProgramOne(addr, piece);
    }

    /** The program loop, over a range that has just been erased. */
    method ProgramRange(src: array<byte>, at: nat, base: nat, total: nat, ghost m: seq<byte>)
      requires Valid() && base + total <= info.capacity && at + total <= src.Length && |m| == info.capacity
      requires Pieces(total, Piece(total, info.writeGranularity)) && base % info.writeGranularity == 0
      requires flash.mem == HalfWritten(m, base, src[at..at + total], 0)
      modifies flash
      ensures flash.mem == Overwrite(m, base, src[at..at + total])
      ensures flash.dropped == old(flash.dropped) && flash.erases == old(flash.erases)
    {
      hide Programmed, Overwrite, HalfWritten;
      ghost var data := src[at..at + total];
      var addr, cnt, p := base, total, at;
      var len := Piece(cnt, info.writeGranularity);
      ghost var done := 0;
      WaitForBusy();
      while cnt > 0
        invariant 0 <= done && addr == base + done && p == at + done && cnt == total - done && 0 <= cnt
        invariant Pieces(cnt, len) && addr % info.writeGranularity == 0
        invariant flash.busy == 0 && flash.dropped == old(flash.dropped) && flash.erases == old(flash.erases)
        invariant flash.mem == HalfWritten(m, base, data, done)
      {
        PieceInPage(addr, total, info.writeGranularity);
        var piece := src[p..p + len];
        SliceOfSlice(src[..], at, total, done, len);
        ProgramPiece(piece, addr, m, base, data, done);
        done := done + len;
        addr, p, cnt := addr + len, p + len, cnt - len;
      }
      AllWritten(m, base, data);
    }

    /** Erases and programs whole blocks from `src`, starting at index `at`. */
    method WriteBlocks(src: array<byte>, at: nat, blkno: nat, blkcnt: nat) returns (r: int)
      requires Valid() && InDevice(info, blkno, blkcnt) && at + blkcnt * info.blksz <= src.Length
      modifies flash
      ensures Valid() && r == blkcnt && flash.dropped == old(flash.dropped)
      ensures Copied(old(flash.mem), flash.mem, blkno * info.blksz, src[..], at, blkcnt * info.blksz)
      ensures Within(old(flash.erases), flash.erases, blkno * info.blksz, blkno * info.blksz + blkcnt * info.blksz)
    {
      hide Copied, Overwrite;
      var base, total := blkno * info.blksz, blkcnt * info.blksz;
      ghost var m, data := flash.mem, src[at..at + total];
      PieceDivides(info, total, blkcnt, info.writeGranularity);
      BlockStartsPage(info, blkno, info.writeGranularity);
      WaitForBusy();
      ProductIsMultiple(blkno, info.blksz);
      ProductIsMultiple(blkcnt, info.blksz);
      var ok := EraseRange(base, total);
      if !ok {
        return 0;
      }
      assert data[..0] + Erased(total) == Erased(total);
      ProgramRange(src, at, base, total, m);
      assert data == src[..][at..at + total];
      CopiedIsOverwrite(m, flash.mem, base, src[..], at, total);
      r := blkcnt;
    }

    /** Reads part of one block by way of the scratch buffer. */
    method ReadPartial(dst: array<byte>, p: nat, blkno: nat, tmp: nat, len: nat, ghost base: nat) returns (n: int)
      requires Valid() && dst != buf && tmp + len <= info.blksz && p + len <= dst.Length
      requires base == blkno * info.blksz && base + info.blksz <= info.capacity
      modifies flash`busy, dst, buf
      ensures n == 1 && Copied(old(dst[..]), dst[..], p, flash.mem, base + tmp, len)
    {
      ghost var m := flash.mem;
      n := ReadBlocks(buf, 0, blkno, 1);
      if n != 1 {
        return;
      }
      ghost var d := dst[..];
      CopySlice(dst, p, buf, tmp, len);
      CopyThrough(buf[..], info.blksz, d, dst[..], p, m, base, tmp, len);
    }

    /** Rewrites one block with part of it replaced. */
    method WritePartial(src: array<byte>, p: nat, blkno: nat, tmp: nat, len: nat, ghost base: nat) returns (n: int)
      requires Valid() && src != buf && tmp + len <= info.blksz && p + len <= src.Length
      requires base == blkno * info.blksz && base + info.blksz <= info.capacity
      modifies flash, buf
      ensures Valid() && n == 1 && flash.dropped == old(flash.dropped)
      ensures Copied(old(flash.mem), flash.mem, base + tmp, src[..], p, len)
      ensures Within(old(flash.erases), flash.erases, base, base + info.blksz)
    {
      ghost var m := flash.mem;
      n := ReadBlocks(buf, 0, blkno, 1);
      if n != 1 {
        return;
      }
      ghost var b := buf[..];
      CopySlice(buf, tmp, src, p, len);
      n := WriteBlocks(buf, 0, blkno, 1);
      ReadModifyWrite(m, flash.mem, base, info.blksz, b, buf[..], tmp, src[..], p, len);
    }

    /** The phases of a read after the first partial block: whole blocks, then a partial one. */
    method ReadFromBlock(dst: array<byte>, at: nat, blkno: nat, count: nat, ghost base: nat) returns (ret: nat)
      requires Valid() && dst != buf && base == blkno * info.blksz && base + count <= info.capacity &&
        at + count <= dst.Length
      modifies flash`busy, dst, buf
      ensures ret == count && Copied(old(dst[..]), dst[..], at, flash.mem, base, count)
    {
      hide Copied;
      ghost var m, d := flash.mem, dst[..];
      CopyNothing(d, at, m, base);
      var tmp, left, n := count / info.blksz, count, 0;
      ghost var whole := BlockStart(info, count);
      ghost var next := AddBlocks(info, blkno, tmp, base, whole);
      ret := 0;
      if tmp > 0 {
        var len := tmp * info.blksz;
        n := ReadBlocks(dst, at, blkno, tmp);
        if n != tmp {
          return;
        }
        left, ret := left - len, ret + len;
      }
      ghost var d1 := dst[..];
      assert Copied(d, d1, at, m, base, whole);
      if left > 0 {
        LastBlock(info, blkno + tmp, next, left);
        n := ReadPartial(dst, at + ret, blkno + tmp, 0, left, next);
        if n != 1 {
          return;
        }
        ret := ret + left;
        CopyOn(d, d1, dst[..], at, m, base, whole, left);
      }
    }

    /** Reads any range: a partial first block, whole blocks, a partial last block. */
    method Read(dst: array<byte>, at: nat, offset: nat, count: nat) returns (ret: nat)
      requires Valid() && dst != buf && offset + count <= info.capacity && at + count <= dst.Length
      modifies flash`busy, dst, buf
      ensures ret == count
      ensures Copied(old(dst[..]), dst[..], at, flash.mem, offset, count)
      ensures dst[..] == Overwrite(old(dst[..]), at, flash.mem[offset..offset + count])
    {
      hide Copied, Overwrite;
      ghost var m, d := flash.mem, dst[..];
      CopyNothing(d, at, m, offset);
      var blkno, tmp := offset / info.blksz, offset % info.blksz;
      ghost var base := BlockStart(info, offset);
      ret := 0;
      if tmp > 0 {
        var len := info.blksz - tmp;
        if count < len {
          len := count;
        }
        var n := ReadPartial(dst, at, blkno, tmp, len, base);
        if n != 1 {
          return;
        }
        ret, blkno := len, blkno + 1;
        base := NextBlock(info, blkno - 1, base);
      }
      ghost var d1 := dst[..];
      assert ret < count ==> base == offset + ret;
      var got := ReadFromBlock(dst, at + ret, blkno, count - ret, base);
      if ret == count { CopyNone(d1, dst[..], at + ret, m, base, offset + ret); }
      CopyOn(d, d1, dst[..], at, m, offset, ret, got);
      ret := ret + got;
      CopiedIsOverwrite(d, dst[..], at, m, offset, count);
    }

    method WriteFromBlock(src: array<byte>, at: nat, blkno: nat, count: nat, ghost base: nat) returns (ret: nat)
      requires Valid() && src != buf && base == blkno * info.blksz && base + count <= info.capacity &&
        at + count <= src.Length
      modifies flash, buf
      ensures Valid() && ret == count && flash.dropped == old(flash.dropped)
      ensures Copied(old(flash.mem), flash.mem, base, src[..], at, count)
      ensures Within(old(flash.erases), flash.erases, base, base + RoundUp(info, count))
    {
      hide Copied, Within, RoundUp;
      ghost var m, s, e := flash.mem, src[..], flash.erases;
      RoundUpIs(info, count);
      CopyNothing(m, base, s, at);
      WithinNothing(e, base, base);
      var tmp, left, n := count / info.blksz, count, 0;
      ghost var whole := BlockStart(info, count);
      ghost var next := AddBlocks(info, blkno, tmp, base, whole);
      ret := 0;
      if tmp > 0 {
        var len := tmp * info.blksz;
        n := WriteBlocks(src, at, blkno, tmp);
        if n != tmp {
          return;
        }
        left, ret := left - len, ret + len;
      }
      ghost var m1, e1 := flash.mem, flash.erases;
      assert Copied(m, m1, base, s, at, whole);
      if left > 0 {
        LastBlock(info, blkno + tmp, next, left);
        n := WritePartial(src, at + ret, blkno + tmp, 0, left, next);
        if n != 1 {
          return;
        }
        ret := ret + left;
        CopyOn(m, m1, flash.mem, base, s, at, whole, left);
        WithinOn(e, e1, flash.erases, base, base + whole, next, next + info.blksz, base, base + RoundUp(info, count));
      }
    }

    /** Writes any range: the flash afterwards holds the old contents with exactly that range
        replaced, the chip has dropped no command on the way, and nothing was erased but blocks that the
        range touches. */
    method Write(src: array<byte>, at: nat, offset: nat, count: nat) returns (ret: nat)
      requires Valid() && src != buf && offset + count <= info.capacity && at + count <= src.Length
      modifies flash, buf
      ensures Valid() && ret == count && flash.dropped == old(flash.dropped)
      ensures Copied(old(flash.mem), flash.mem, offset, src[..], at, count)
      ensures flash.mem == Overwrite(old(flash.mem), offset, src[..][at..at + count])
      ensures Within(old(flash.erases), flash.erases, offset - offset % info.blksz, RoundUp(info, offset + count))
    {
      hide Copied, Within, Overwrite, RoundUp;
      ghost var m, s, e := flash.mem, src[..], flash.erases;
      ghost var end := RoundUp(info, offset + count);
      CopyNothing(m, offset, s, at);
      WithinNothing(e, offset, offset);
      var blkno, tmp := offset / info.blksz, offset % info.blksz;
      ghost var base := BlockStart(info, offset);
      ret := 0;
      if tmp > 0 {
        var len := info.blksz - tmp;
        if count < len {
          len := count;
        }
        var n := WritePartial(src, at, blkno, tmp, len, base);
        if n != 1 {
          return;
        }
        ret, blkno := len, blkno + 1;
        base := NextBlock(info, blkno - 1, base);
      }
      ghost var m1, e1 := flash.mem, flash.erases;
      assert ret < count ==> base == offset + ret;
      var got := WriteFromBlock(src, at + ret, blkno, count - ret, base);
      if ret == count { CopyNowhere(m1, flash.mem, base, offset + ret, s, at + ret); }
      CopyOn(m, m1, flash.mem, offset, s, at, ret, got);
      RoundUpEnds(info, offset, count, tmp, ret, base);
      WithinOn(e, e1, flash.erases, offset - tmp, offset - tmp + (if tmp > 0 then info.blksz else 0),
               base, base + RoundUp(info, count - ret), offset - tmp, end);
      ret := ret + got;
      CopiedIsOverwrite(m, flash.mem, offset, s, at, count);
    }

    /** What is written is what is read back. */
    method WriteThenRead(src: array<byte>, dst: array<byte>, offset: nat, count: nat)
      requires Valid() && src != buf && dst != buf && src != dst
      requires offset + count <= info.capacity && count <= src.Length && count <= dst.Length
      modifies flash, buf, dst
      ensures dst[..count] == src[..count]
    {
      var n := Write(src, 0, offset, count);
      ghost var m := flash.mem;
      assert m[offset..offset + count] == src[..][0..count];
      n := Read(dst, 0, offset, count);
      assert dst[..count] == dst[..][..count];
    }
  }

  lemma SliceOfSlice(s: seq<byte>, at: nat, total: nat, done: nat, len: nat)
    requires at + total <= |s| && done + len <= total
    ensures s[at + done..at + done + len] == s[at..at + total][done..done + len]
  {
    var t := s[at..at + total];
    var x, y := s[at + done..at + done + len], t[done..done + len];
    assert forall k :: 0 <= k < len ==> x[k] == y[k];
  }

  /** Some pieces programmed, the rest of the range still erased. */
  ghost function HalfWritten(m: seq<byte>, base: int, data: seq<byte>, done: int): (r: seq<byte>)
    requires 0 <= base && base + |data| <= |m| && 0 <= done <= |data|
    ensures |r| == |m|
  {
    Overwrite(m, base, data[..done] + Erased(|data| - done))
  }

  lemma AllWritten(m: seq<byte>, base: int, data: seq<byte>)
    requires 0 <= base && base + |data| <= |m|
    ensures HalfWritten(m, base, data, |data|) == Overwrite(m, base, data)
  {
    assert data[..|data|] + Erased(0) == data;
  }

  /** Programming the next piece of an erased range writes exactly that piece. */
  lemma ProgramNext(m: seq<byte>, base: int, data: seq<byte>, done: int, half: seq<byte>, addr: int, piece: seq<byte>)
    requires 0 <= base && base + |data| <= |m| && 0 <= done && done + |piece| <= |data|
    requires addr == base + done && half == HalfWritten(m, base, data, done) && piece == data[done..done + |piece|]
    ensures Overwrite(half, addr, Programmed(half[addr..addr + |piece|], piece))
      == HalfWritten(m, base, data, done + |piece|)
  {
    assert half[addr..addr + |piece|] == Erased(|piece|);
    ProgramErased(piece);
    assert data[..done] + piece == data[..done + |piece|];
    assert Overwrite(half, addr, piece) == HalfWritten(m, base, data, done + |piece|);
  }

  // Block arithmetic

  /** The end of the last block that a range which ends at `x` touches. */
  function RoundUp(info: Info, x: nat): nat {
    if info.blksz == 0 || x % info.blksz == 0 then x else x - x % info.blksz + info.blksz
  }

  lemma RoundUpIs(info: Info, x: nat)
    requires info.Valid()
    ensures x <= RoundUp(info, x) < x + info.blksz
    ensures RoundUp(info, x) == x / info.blksz * info.blksz + if x % info.blksz == 0 then 0 else info.blksz
  {
    assert x == x / info.blksz * info.blksz + x % info.blksz;
  }

  /** Where the blocks of a range end, seen from its start and from the first whole block in it. */
  lemma RoundUpEnds(info: Info, offset: nat, count: nat, tmp: nat, ret: nat, base: nat)
    requires info.Valid() && tmp == offset % info.blksz && ret <= count
    requires tmp == 0 ==> ret == 0 && base == offset
    requires tmp > 0 ==> base == offset - tmp + info.blksz
    requires tmp > 0 ==> ret == if count < info.blksz - tmp then count else info.blksz - tmp
    ensures offset - tmp <= RoundUp(info, offset + count)
    ensures tmp > 0 ==> offset - tmp + info.blksz <= RoundUp(info, offset + count)
    ensures base + RoundUp(info, count - ret) <= RoundUp(info, offset + count)
  {
    hide RoundUp;
    var b, q := info.blksz, offset / info.blksz;
    assert offset == q * b + tmp;
    if tmp == 0 {
      RoundUpShifts(info, q, count);
    } else {
      RoundUpShifts(info, q, tmp + count);
      RoundUpIs(info, tmp + count);
      if ret < count {
        assert base == (q + 1) * b;
        RoundUpShifts(info, q + 1, count - ret);
      } else {
        RoundUpWithin(info, tmp + count);
        RoundUpIs(info, 0);
      }
    }
  }

  lemma RoundUpWithin(info: Info, x: nat)
    requires info.Valid() && 0 < x <= info.blksz
    ensures RoundUp(info, x) == info.blksz
  {
    if x < info.blksz { QuotientUnique(x, info.blksz, 0, x); }
  }

  lemma RoundUpShifts(info: Info, q: nat, x: nat)
    requires info.Valid()
    ensures q * info.blksz >= 0 && RoundUp(info, q * info.blksz + x) == q * info.blksz + RoundUp(info, x)
  {
    SameRest(x, q, info.blksz);
  }

  lemma SameRest(x: nat, q: nat, b: nat)
    requires b > 0
    ensures q * b + x >= 0 && (q * b + x) % b == x % b
  {
    assert q * b + x == (q + x / b) * b + x % b;
    QuotientUnique(q * b + x, b, q + x / b, x % b);
  }

  lemma WithinNothing(e: seq<(int, int)>, lo: int, hi: int)
    ensures Within(e, e, lo, hi)
  {
  }

  lemma WithinOn(a: seq<(int, int)>, b: seq<(int, int)>, c: seq<(int, int)>, lo1: int, hi1: int, lo2: int, hi2: int,
      lo: int, hi: int)
    requires Within(a, b, lo1, hi1) && Within(b, c, lo2, hi2)
    requires lo <= lo1 && hi1 <= hi && lo <= lo2 && hi2 <= hi
    ensures Within(a, c, lo, hi)
  {
  }

  /** Where the block that holds an offset starts. */
  lemma BlockStart(info: Info, offset: nat) returns (base: nat)
    requires info.Valid()
    ensures base == offset / info.blksz * info.blksz && base + offset % info.blksz == offset
    ensures offset < info.capacity ==> base + info.blksz <= info.capacity
  {
    var b := info.blksz;
    var q, n := offset / b, info.capacity / b;
    base := q * b;
    if offset < info.capacity {
      FactorBound(q - n, b);
      assert (q - n) * b == q * b - n * b;
      FactorBound(n - q, b);
      assert (n - q) * b == n * b - q * b;
    }
  }

  lemma NextBlock(info: Info, blkno: nat, base: nat) returns (next: nat)
    requires base == blkno * info.blksz
    ensures next == (blkno + 1) * info.blksz == base + info.blksz
  {
    next := base + info.blksz;
  }

  lemma AddBlocks(info: Info, blkno: nat, n: nat, base: nat, whole: nat) returns (next: nat)
    requires base == blkno * info.blksz && whole == n * info.blksz
    ensures next == (blkno + n) * info.blksz == base + whole
  {
    next := base + whole;
  }

  /** A block that starts inside the device ends inside it. */
  lemma LastBlock(info: Info, blkno: nat, base: nat, len: nat)
    requires info.Valid() && base == blkno * info.blksz && len > 0 && base + len <= info.capacity
    ensures base + info.blksz <= info.capacity
  {
    var b, n := info.blksz, info.capacity / info.blksz;
    FactorBound(n - blkno, b);
    FactorBound(blkno - n, b);
    assert (n - blkno) * b == n * b - blkno * b && (blkno - n) * b == blkno * b - n * b;
  }

  ghost predicate InDevice(info: Info, blkno: nat, blkcnt: nat) {
    blkno * info.blksz + blkcnt * info.blksz <= info.capacity
  }

  /** The erases logged since `before` all lie in [lo, hi). */
  ghost predicate Within(before: seq<(int, int)>, now: seq<(int, int)>, lo: int, hi: int) {
    before <= now && forall k :: |before| <= k < |now| ==> lo <= now[k].0 && now[k].0 + now[k].1 <= hi
  }

  lemma EraseKeepsAlignment(n: int, len: int, b: int)
    requires b == E4K || b == E32K || b == E64K || b == E256K
    requires len == E4K || len == E32K || len == E64K || len == E256K
    requires b <= len && n % b == 0
    ensures (n + len) % b == 0 && (n - len) % b == 0
  {
    var j := if b == E4K then len / E4K else if b == E32K then len / E32K else if b == E64K then len / E64K else 1;
    assert len == j * b;
    MultiplesAdd(n, j, b);
  }

  lemma MultiplesAdd(n: int, j: int, b: int)
    requires b > 0 && n % b == 0
    ensures (n + j * b) % b == 0 && (n - j * b) % b == 0
  {
    var q := n / b;
    assert n == q * b && n + j * b == (q + j) * b && n - j * b == (q - j) * b;
    QuotientUnique(n + j * b, b, q + j, 0);
    QuotientUnique(n - j * b, b, q - j, 0);
  }

  /** At every step of the erase loop some branch applies; it is the largest erase that does, and it keeps
      whole blocks. */
  lemma PlanStep(info: Info, addr: nat, cnt: nat)
    requires info.Valid() && cnt > 0 && addr % info.blksz == 0 && cnt % info.blksz == 0
    ensures var len := EraseLength(info, addr, cnt);
      info.CanErase(len) && addr % len == 0 && cnt >= len && (addr + len) % info.blksz == 0 &&
        (cnt - len) % info.blksz == 0
    ensures forall size: nat :: info.CanErase(size) && addr % size == 0 && cnt >= size ==>
      size <= EraseLength(info, addr, cnt)
  {
    var len := EraseLength(info, addr, cnt);
    assert len >= info.blksz && info.CanErase(len);
    EraseKeepsAlignment(addr, len, info.blksz);
    EraseKeepsAlignment(cnt, len, info.blksz);
  }
}
