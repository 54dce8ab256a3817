/** Machine words as their bits, most significant first. */
module BitWords {

  type Bits = seq<bool>

  function Zeros(n: nat): (r: Bits)
    ensures |r| == n
  {
    seq(n, _ => false)
  }

  function Ones(n: nat): (r: Bits)
    ensures |r| == n
  {
    seq(n, _ => true)
  }

  /** `w >> n` */
  function Shr(w: Bits, n: nat): (r: Bits)
    requires n <= |w|
    ensures |r| == |w|
  {
    Zeros(n) + w[..|w| - n]
  }

  /** `w << n` */
  function Shl(w: Bits, n: nat): (r: Bits)
    requires n <= |w|
    ensures |r| == |w|
  {
    w[n..] + Zeros(n)
  }

  function Or(a: Bits, b: Bits): (r: Bits)
    requires |a| == |b|
    ensures |r| == |a|
  {
    seq(|a|, i requires 0 <= i < |a| => a[i] || b[i])
  }

  function And(a: Bits, b: Bits): (r: Bits)
    requires |a| == |b|
    ensures |r| == |a|
  {
    seq(|a|, i requires 0 <= i < |a| => a[i] && b[i])
  }
}
