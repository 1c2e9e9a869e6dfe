/** IP addresses as bit strings, most significant bit first.

  The trie of device/allowedips.go inspects addresses through three byte-level
  operations: `commonBits`, `choose` and `maskSelf`. Each is modelled on bytes and
  proved to be the expected operation on the bit string of the address. A machine
  word read from an address is the sequence of its bits.
 */
module AddressBits {

  predicate IsAddress(ip: seq<bv8>) {
    |ip| == 4 || |ip| == 16
  }

  /** Bit `k` of a byte, counted from the most significant one. */
  predicate BitOf(b: bv8, k: nat)
    requires k < 8
  {
    match k
    case 0 => b & 0x80 != 0
    case 1 => b & 0x40 != 0
    case 2 => b & 0x20 != 0
    case 3 => b & 0x10 != 0
    case 4 => b & 0x08 != 0
    case 5 => b & 0x04 != 0
    case 6 => b & 0x02 != 0
    case _ => b & 0x01 != 0
  }

  function ByteBits(b: bv8): (s: seq<bool>)
    ensures |s| == 8
  {
    seq(8, k requires 0 <= k < 8 => BitOf(b, k))
  }

  function Bits(ip: seq<bv8>): (s: seq<bool>)
    ensures |s| == 8 * |ip|
  {
    if ip == [] then [] else ByteBits(ip[0]) + Bits(ip[1..])
  }

  lemma {:induction false} BitAt(ip: seq<bv8>, i: nat)
    requires i < 8 * |ip|
    ensures Bits(ip)[i] == BitOf(ip[i / 8], i % 8)
  {
    if i < 8 {
    } else {
      BitAt(ip[1..], i - 8);
      assert i / 8 == (i - 8) / 8 + 1;
    }
  }

  lemma {:induction false} BitsSplit(ip: seq<bv8>, n: nat)
    requires n <= |ip|
    ensures Bits(ip) == Bits(ip[..n]) + Bits(ip[n..])
  {
    if n > 0 {
      BitsSplit(ip[1..], n - 1);
      assert ip[..n][1..] == ip[1..][..n - 1];
      assert ip[n..] == ip[1..][n - 1..];
    } else {
      assert ip[0..] == ip;
    }
  }

  // ----- choose

  /** The lowest bit of `b >> shift`. */
  function ShiftedBit(b: bv8, shift: nat): (bit: nat) {
    if shift > 0 then ShiftedBit(b >> 1, shift - 1) else if b & 1 != 0 then 1 else 0
  }

  lemma {:induction false} ShiftSelectsBit(b: bv8, shift: nat)
    requires shift < 8
    ensures ShiftedBit(b, shift) == if BitOf(b, 7 - shift) then 1 else 0
  {
    if shift == 0 {
    } else {
      ShiftSelectsBit(b >> 1, shift - 1);
    }
  }

  /** The branch bit of `ip` below a prefix of length `cidr`. */
  function Choose(ip: seq<bv8>, cidr: nat): (bit: nat)
    requires cidr < 8 * |ip|
    ensures bit == if Bits(ip)[cidr] then 1 else 0
  {
    BitAt(ip, cidr);
    ShiftSelectsBit(ip[cidr / 8], 7 - cidr % 8);
    ShiftedBit(ip[cidr / 8], 7 - cidr % 8)
  }

  // ----- commonBits

  function LeadingZeros(word: seq<bool>): (n: nat)
    ensures n <= |word|
    ensures forall i :: 0 <= i < n ==> !word[i]
    ensures n < |word| ==> word[n]
  {
    if word == [] || word[0] then 0 else 1 + LeadingZeros(word[1..])
  }

  function Xor(a: seq<bool>, b: seq<bool>): (x: seq<bool>)
    requires |a| == |b|
    ensures |x| == |a| && forall i :: 0 <= i < |x| ==> x[i] == (a[i] != b[i])
  {
    seq(|a|, i requires 0 <= i < |a| => a[i] != b[i])
  }

  /** The length of the longest common prefix of two addresses. */
  function CommonBits(ip1: seq<bv8>, ip2: seq<bv8>): (n: nat)
    requires IsAddress(ip1) && |ip2| == |ip1|
    ensures n <= 8 * |ip1|
    ensures Bits(ip1)[..n] == Bits(ip2)[..n]
    ensures n < 8 * |ip1| ==> Bits(ip1)[n] != Bits(ip2)[n]
  {
    if |ip1| == 4 then
      LeadingZeros(Xor(Bits(ip1), Bits(ip2)))
    else
      BitsSplit(ip1, 8);
      BitsSplit(ip2, 8);
      var high := Xor(Bits(ip1[..8]), Bits(ip2[..8]));
      if LeadingZeros(high) < 64 then
        LeadingZeros(high)
      else
        64 + LeadingZeros(Xor(Bits(ip1[8..]), Bits(ip2[8..])))
  }

  /** The test the trie uses at every node: the first `n` bits agree. */
  lemma CommonBitsReach(ip1: seq<bv8>, ip2: seq<bv8>, n: nat)
    requires IsAddress(ip1) && |ip2| == |ip1| && n <= 8 * |ip1|
    ensures CommonBits(ip1, ip2) >= n <==> Bits(ip1)[..n] == Bits(ip2)[..n]
  {
    var c := CommonBits(ip1, ip2);
    if c >= n {
      assert Bits(ip1)[..n] == Bits(ip1)[..c][..n];
      assert Bits(ip2)[..n] == Bits(ip2)[..c][..n];
    } else {
      assert Bits(ip1)[..n][c] != Bits(ip2)[..n][c];
    }
  }

  // ----- maskSelf

  /** A byte whose top `ones` bits are set. */
  function MaskByte(ones: nat): (m: bv8)
    requires ones <= 8
    ensures forall j :: 0 <= j < 8 ==> BitOf(m, j) == (j < ones)
  {
    match ones
    case 0 => 0x00
    case 1 => 0x80
    case 2 => 0xC0
    case 3 => 0xE0
    case 4 => 0xF0
    case 5 => 0xF8
    case 6 => 0xFC
    case 7 => 0xFE
    case _ => 0xFF
  }

  /** The `cidr`-bit network mask over `size` bytes. */
  function CidrMask(cidr: nat, size: nat): (m: seq<bv8>)
    requires cidr <= 8 * size
    ensures |m| == size
    ensures forall i :: 0 <= i < size ==>
      m[i] == MaskByte(if cidr >= 8 * i + 8 then 8 else if cidr <= 8 * i then 0 else cidr - 8 * i)
  {
    seq(size, i requires 0 <= i < size =>
      MaskByte(if cidr >= 8 * i + 8 then 8 else if cidr <= 8 * i then 0 else cidr - 8 * i))
  }

  lemma AndIsBitwise(a: bv8, b: bv8, k: nat)
    requires k < 8
    ensures BitOf(a & b, k) == (BitOf(a, k) && BitOf(b, k))
  {
  }

  /** `masked` keeps the first `cidr` bits of `ip` and clears the rest. */
  ghost predicate IsMasked(masked: seq<bv8>, ip: seq<bv8>, cidr: nat) {
    && |masked| == |ip|
    && cidr <= 8 * |ip|
    && forall i :: 0 <= i < 8 * |ip| ==> Bits(masked)[i] == (i < cidr && Bits(ip)[i])
  }

  method MaskSelf(bits: seq<bv8>, cidr: nat) returns (masked: seq<bv8>)
    requires cidr <= 8 * |bits|
    ensures IsMasked(masked, bits, cidr)
  {
    var mask := CidrMask(cidr, |bits|);
    masked := bits;
    for i := 0 to |mask|
      invariant |masked| == |bits|
      invariant forall k :: 0 <= k < i ==> masked[k] == bits[k] & mask[k]
      invariant forall k :: i <= k < |bits| ==> masked[k] == bits[k]
    {
      masked := masked[i := masked[i] & mask[i]];
    }
    MaskedBits(masked, bits, cidr);
  }

  lemma MaskedBits(masked: seq<bv8>, bits: seq<bv8>, cidr: nat)
    requires |masked| == |bits| && cidr <= 8 * |bits|
    requires forall k :: 0 <= k < |bits| ==> masked[k] == bits[k] & CidrMask(cidr, |bits|)[k]
    ensures IsMasked(masked, bits, cidr)
  {
    var mask := CidrMask(cidr, |bits|);
    forall i | 0 <= i < 8 * |bits| ensures Bits(masked)[i] == (i < cidr && Bits(bits)[i]) {
      BitAt(bits, i);
      BitAt(masked, i);
      AndIsBitwise(bits[i / 8], mask[i / 8], i % 8);
    }
  }
}
