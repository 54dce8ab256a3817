/** Fields of the 128-bit registers of an SD/MMC card (src/driver/sd/sdcard.c). */
module SdcardRegister {
  import opened BitWords

  /** The response to a register command: four 32-bit words, the most significant one first. */
  predicate IsResponse(resp: seq<Bits>) {
    |resp| == 4 && forall i :: 0 <= i < 4 ==> |resp[i]| == 32
  }

  function Register(resp: seq<Bits>): (r: Bits)
    requires IsResponse(resp)
    ensures |r| == 128
  {
    resp[0] + resp[1] + resp[2] + resp[3]
  }

  /** `size` bits from bit `start` on, put together from one word or two. */
  function Unstuff(resp: seq<Bits>, start: nat, size: nat): (r: Bits)
    requires IsResponse(resp) && 1 <= size <= 32 && start + size <= 128
    ensures |r| == 32
  {
    var off, shft := 3 - start / 32, start % 32;
    Field(if size + shft > 32 then resp[off - 1] else Zeros(32), resp[off], shft, size)
  }

  function Field(high: Bits, low: Bits, shft: nat, size: nat): (r: Bits)
    requires |high| == |low| == 32 && shft < 32 && 1 <= size <= 32
    ensures |r| == 32
  {
    var mask := Zeros(32 - size) + Ones(size);
    var res := Shr(low, shft);
    And(if size + shft > 32 then Or(res, Shl(high, (32 - shft) % 32)) else res, mask)
  }

  lemma MaskBit(w: Bits, size: nat, k: nat)
    requires |w| == 32 && 1 <= size <= 32 && k < 32
    ensures And(w, Zeros(32 - size) + Ones(size))[31 - k] == (w[31 - k] && k < size)
  {
  }

  lemma LowBit(low: Bits, shft: nat, k: nat)
    requires |low| == 32 && shft < 32 && k < 32
    ensures Shr(low, shft)[31 - k] == (k + shft < 32 && low[31 - shft - k])
  {
  }

  lemma HighBit(high: Bits, shft: nat, k: nat)
    requires |high| == 32 && 0 < shft < 32 && k < 32
    ensures Shl(high, 32 - shft)[31 - k] == (k + shft >= 32 && high[63 - shft - k])
  {
  }

  lemma FieldBit(high: Bits, low: Bits, shft: nat, size: nat, k: nat)
    requires |high| == |low| == 32 && shft < 32 && 1 <= size <= 32 && k < 32
    ensures Field(high, low, shft, size)[31 - k] == (k < size &&
      if k + shft < 32 then low[31 - shft - k] else high[63 - shft - k])
  {
    hide Shr, Shl, And;
    LowBit(low, shft, k);
    if size + shft > 32 {
      assert (32 - shft) % 32 == 32 - shft;
      HighBit(high, shft, k);
      MaskBit(Or(Shr(low, shft), Shl(high, 32 - shft)), size, k);
    } else {
      MaskBit(Shr(low, shft), size, k);
    }
  }

  lemma RegisterBit(resp: seq<Bits>, word: nat, i: nat)
    requires IsResponse(resp) && word < 4 && i < 32
    ensures Register(resp)[32 * word + i] == resp[word][i]
  {
  }

  /** The bit that is put in place `k`, as a bit of the register. */
  lemma FieldOf(resp: seq<Bits>, off: nat, shft: nat, k: nat)
    requires IsResponse(resp) && off < 4 && shft < 32 && k < 32 && (shft + k >= 32 ==> off > 0)
    ensures Register(resp)[32 * off + 31 - shft - k] == if k + shft < 32 then resp[off][31 - shft - k]
      else resp[off - 1][63 - shft - k]
  {
    if k + shft < 32 { RegisterBit(resp, off, 31 - shft - k); } else { RegisterBit(resp, off - 1, 63 - shft - k); }
  }

  /** Bit `k` of the field, counted from the least significant one. */
  lemma UnstuffBit(resp: seq<Bits>, start: nat, size: nat, k: nat)
    requires IsResponse(resp) && 1 <= size <= 32 && start + size <= 128 && k < 32
    ensures Unstuff(resp, start, size)[31 - k] == (k < size && Register(resp)[127 - start - k])
  {
    var q, shft := start / 32, start % 32;
    assert start == 32 * q + shft && q < 4;
    UnstuffBitAt(resp, 3 - q, shft, size, k, start);
  }

  lemma UnstuffBitAt(resp: seq<Bits>, off: nat, shft: nat, size: nat, k: nat, start: nat)
    requires IsResponse(resp) && 1 <= size <= 32 && start + size <= 128 && k < 32 && off < 4 && shft < 32
    requires start == 32 * (3 - off) + shft && start / 32 == 3 - off && start % 32 == shft
    ensures Unstuff(resp, start, size)[31 - k] == (k < size && Register(resp)[127 - start - k])
  {
    hide Field, Register;
    FieldBit(if size + shft > 32 then resp[off - 1] else Zeros(32), resp[off], shft, size, k);
    assert 127 - start - k == 32 * off + 31 - shft - k;
    if k < size { FieldOf(resp, off, shft, k); }
  }

  /** The field is the slice of the register, whether or not it crosses a word. */
  lemma UnstuffIsSlice(resp: seq<Bits>, start: nat, size: nat)
    requires IsResponse(resp) && 1 <= size <= 32 && start + size <= 128
    ensures Unstuff(resp, start, size) == Zeros(32 - size) + Register(resp)[128 - start - size..128 - start]
  {
    hide Unstuff, Register;
    var r := Zeros(32 - size) + Register(resp)[128 - start - size..128 - start];
    forall i | 0 <= i < 32 ensures Unstuff(resp, start, size)[i] == r[i] {
      UnstuffBit(resp, start, size, 31 - i);
    }
  }
}
