/** CIDR notation (section 3.1 of RFC 4632): the address range built from an address and a prefix length. */
module Network {
  type Bytes = seq<bv8>

  /** A byte whose `r` most significant bits are set. */
  function TopBits(r: nat): bv8
    requires r <= 8
  {
    match r
    case 0 => 0x00
    case 1 => 0x80
    case 2 => 0xc0
    case 3 => 0xe0
    case 4 => 0xf0
    case 5 => 0xf8
    case 6 => 0xfc
    case 7 => 0xfe
    case _ => 0xff
  }

  /** A byte with only bit `k` set, counted from the most significant one. */
  function OneBit(k: nat): bv8
    requires k < 8
  {
    match k
    case 0 => 0x80
    case 1 => 0x40
    case 2 => 0x20
    case 3 => 0x10
    case 4 => 0x08
    case 5 => 0x04
    case 6 => 0x02
    case _ => 0x01
  }

  predicate BitOf(b: bv8, k: nat)
    requires k < 8
  {
    b & OneBit(k) != 0
  }

  ghost predicate BitsAgree(a: bv8, x: bv8, r: nat)
    requires r <= 8
  {
    forall k | 0 <= k < r :: BitOf(a, k) == BitOf(x, k)
  }

  predicate SameTop(a: bv8, x: bv8, r: nat)
    requires r <= 8
  {
    (a ^ x) & TopBits(r) == 0
  }

  lemma {:induction false} NextBit(r: nat)
    requires r < 8
    ensures OneBit(r) == 1 << (7 - r) && TopBits(r + 1) == TopBits(r) | OneBit(r)
  {
    if r == 0 {} else if r == 1 {} else if r == 2 {} else if r == 3 {}
    else if r == 4 {} else if r == 5 {} else if r == 6 {} else {}
  }

  lemma {:induction false} UnderUnion(d: bv8, t: bv8, b: bv8)
    ensures d & (t | b) == 0 <==> d & t == 0 && d & b == 0
  {
  }

  lemma {:induction false} DifferingBit(a: bv8, x: bv8, k: nat)
    requires k < 8
    ensures BitOf(a, k) == BitOf(x, k) <==> (a ^ x) & OneBit(k) == 0
  {
    if k == 0 {} else if k == 1 {} else if k == 2 {} else if k == 3 {}
    else if k == 4 {} else if k == 5 {} else if k == 6 {} else {}
  }

  lemma {:induction false} OneMoreBit(a: bv8, x: bv8, r: nat)
    requires r < 8
    ensures SameTop(a, x, r + 1) <==> SameTop(a, x, r) && BitOf(a, r) == BitOf(x, r)
  {
    var d, t, b := a ^ x, TopBits(r), OneBit(r);
    NextBit(r);
    UnderUnion(d, t, b);
    DifferingBit(a, x, r);
  }

  lemma {:induction false} BitsAgreeStep(a: bv8, x: bv8, r: nat)
    requires r < 8
    ensures BitsAgree(a, x, r + 1) <==> BitsAgree(a, x, r) && BitOf(a, r) == BitOf(x, r)
  {
  }

  /** The first `r` bits agree exactly when the masked bytes do. */
  lemma {:induction false} MaskedAgree(a: bv8, x: bv8, r: nat)
    requires r <= 8
    ensures SameTop(a, x, r) <==> BitsAgree(a, x, r)
  {
    if r > 0 {
      MaskedAgree(a, x, r - 1);
      OneMoreBit(a, x, r - 1);
      BitsAgreeStep(a, x, r - 1);
    }
  }

  function MaskLow(b: bv8, mask: bv8): bv8 { b & mask }

  function FillHigh(b: bv8, mask: bv8): bv8 { b | !mask }

  predicate Between(lo: bv8, x: bv8, hi: bv8) { lo <= x <= hi }

  lemma {:induction false} ContiguousMask(r: nat)
    requires r <= 8
    ensures !TopBits(r) & (!TopBits(r) + 1) == 0
  {
    if r == 0 {} else if r == 1 {} else if r == 2 {} else if r == 3 {}
    else if r == 4 {} else if r == 5 {} else if r == 6 {} else if r == 7 {} else {}
  }

  lemma {:induction false} BetweenUnderMask(a: bv8, x: bv8, t: bv8)
    requires !t & (!t + 1) == 0
    ensures Between(MaskLow(a, t), x, FillHigh(a, t)) <==> (a ^ x) & t == 0
  {
  }

  /** Masking the low end and filling the high end bounds exactly the bytes with the same top bits. */
  lemma {:induction false} MaskedRange(a: bv8, x: bv8, r: nat)
    requires r <= 8
    ensures Between(MaskLow(a, TopBits(r)), x, FillHigh(a, TopBits(r))) <==> SameTop(a, x, r)
  {
    ContiguousMask(r);
    BetweenUnderMask(a, x, TopBits(r));
  }

  // ---- Addresses ----

  function Clamp(n: int): nat { if n <= 0 then 0 else if n >= 8 then 8 else n }

  /** Byte `k` of the mask for a prefix of `n` bits. */
  function MaskByte(n: nat, k: nat): bv8 { TopBits(Clamp(n - 8 * k)) }

  function RangeMin(a: Bytes, n: nat): Bytes { seq(|a|, k requires 0 <= k < |a| => MaskLow(a[k], MaskByte(n, k))) }

  function RangeMax(a: Bytes, n: nat): Bytes { seq(|a|, k requires 0 <= k < |a| => FillHigh(a[k], MaskByte(n, k))) }

  /** Byte-lexicographic order. */
  predicate AtMost(a: Bytes, b: Bytes)
    requires |a| == |b|
  {
    a == [] || a[0] < b[0] || (a[0] == b[0] && AtMost(a[1..], b[1..]))
  }

  function BitAt(a: Bytes, i: nat): bool
    requires i < 8 * |a|
  {
    BitOf(a[i / 8], i % 8)
  }

  ghost predicate FirstBitsAgree(a: Bytes, x: Bytes, n: nat)
    requires |a| == |x| && n <= 8 * |a|
  {
    forall i | 0 <= i < n :: BitAt(a, i) == BitAt(x, i)
  }

  lemma {:induction false} ZeroIsLeast(a: Bytes, x: Bytes)
    requires |a| == |x|
    ensures AtMost(RangeMin(a, 0), x) && AtMost(x, RangeMax(a, 0))
  {
    if a != [] {
      assert RangeMin(a, 0)[1..] == RangeMin(a[1..], 0) && RangeMax(a, 0)[1..] == RangeMax(a[1..], 0);
      MaskedRange(a[0], x[0], 0);
      ZeroIsLeast(a[1..], x[1..]);
    }
  }

  function Less8(n: nat): nat { if n >= 8 then n - 8 else 0 }

  lemma {:induction false} RangeTail(a: Bytes, n: nat)
    requires a != []
    ensures RangeMin(a, n)[1..] == RangeMin(a[1..], Less8(n)) && RangeMax(a, n)[1..] == RangeMax(a[1..], Less8(n))
  {
    forall k | 0 <= k < |a| - 1 ensures Clamp(n - 8 * (k + 1)) == Clamp(Less8(n) - 8 * k) {}
  }

  lemma {:induction false} HeadBits(a: Bytes, x: Bytes, n: nat)
    requires |a| == |x| && a != [] && n <= 8 * |a| && FirstBitsAgree(a, x, n)
    ensures BitsAgree(a[0], x[0], Clamp(n))
  {
    forall k | 0 <= k < Clamp(n) ensures BitOf(a[0], k) == BitOf(x[0], k) {
      assert BitAt(a, k) == BitAt(x, k);
    }
  }

  lemma {:induction false} TailBits(a: Bytes, x: Bytes, n: nat)
    requires |a| == |x| && a != [] && n <= 8 * |a| && FirstBitsAgree(a, x, n)
    ensures FirstBitsAgree(a[1..], x[1..], Less8(n))
  {
    forall i | 0 <= i < Less8(n) ensures BitAt(a[1..], i) == BitAt(x[1..], i) {
      assert BitAt(a, i + 8) == BitAt(x, i + 8);
    }
  }

  lemma {:induction false} JoinBits(a: Bytes, x: Bytes, n: nat)
    requires |a| == |x| && a != [] && n <= 8 * |a|
    requires BitsAgree(a[0], x[0], Clamp(n)) && FirstBitsAgree(a[1..], x[1..], Less8(n))
    ensures FirstBitsAgree(a, x, n)
  {
    forall i | 0 <= i < n ensures BitAt(a, i) == BitAt(x, i) {
      if i < 8 {
        assert BitOf(a[0], i) == BitOf(x[0], i);
      } else {
        assert BitAt(a[1..], i - 8) == BitAt(x[1..], i - 8);
      }
    }
  }

  ghost predicate InRange(lo: Bytes, x: Bytes, hi: Bytes)
    requires |lo| == |x| == |hi|
  {
    AtMost(lo, x) && AtMost(x, hi)
  }

  /** One step of the two comparisons: the first byte is fixed, or the rest is free. */
  lemma {:induction false} InRangeStep(lo: Bytes, x: Bytes, hi: Bytes)
    requires |lo| == |x| == |hi| && lo != []
    requires lo[0] == hi[0] || InRange(lo[1..], x[1..], hi[1..])
    ensures InRange(lo, x, hi) <==> Between(lo[0], x[0], hi[0]) && InRange(lo[1..], x[1..], hi[1..])
  {
  }

  lemma {:induction false} FullByte(a: Bytes, n: nat)
    requires a != [] && n >= 8
    ensures RangeMin(a, n)[0] == RangeMax(a, n)[0]
  {
    assert MaskByte(n, 0) == 0xff;
  }

  lemma {:induction false} RangeHead(a: Bytes, x: bv8, n: nat)
    requires a != []
    ensures Between(RangeMin(a, n)[0], x, RangeMax(a, n)[0]) <==> BitsAgree(a[0], x, Clamp(n))
  {
    assert MaskByte(n, 0) == TopBits(Clamp(n));
    MaskedRange(a[0], x, Clamp(n));
    MaskedAgree(a[0], x, Clamp(n));
  }

  /** An address of the same family lies in the built range exactly when its first `n` bits agree. */
  lemma {:induction false} RangeIsPrefix(a: Bytes, x: Bytes, n: nat)
    requires |a| == |x| && n <= 8 * |a|
    ensures InRange(RangeMin(a, n), x, RangeMax(a, n)) <==> FirstBitsAgree(a, x, n)
  {
    if a != [] {
      RangeHead(a, x[0], n);
      RangeTail(a, n);
      RangeIsPrefix(a[1..], x[1..], Less8(n));
      if n < 8 {
        ZeroIsLeast(a[1..], x[1..]);
      } else {
        FullByte(a, n);
      }
      InRangeStep(RangeMin(a, n), x, RangeMax(a, n));
      PrefixSplit(a, x, n);
    }
  }

  lemma {:induction false} PrefixSplit(a: Bytes, x: Bytes, n: nat)
    requires |a| == |x| && a != [] && n <= 8 * |a|
    ensures FirstBitsAgree(a, x, n) <==>
            BitsAgree(a[0], x[0], Clamp(n)) && FirstBitsAgree(a[1..], x[1..], Less8(n))
  {
    if FirstBitsAgree(a, x, n) {
      HeadBits(a, x, n);
      TailBits(a, x, n);
    }
    if BitsAgree(a[0], x[0], Clamp(n)) && FirstBitsAgree(a[1..], x[1..], Less8(n)) {
      JoinBits(a, x, n);
    }
  }

  /** The mask and range construction when a CIDR string is read; it fails on a prefix length that does
      not fit the address family. */
  method BuildRange(address: array<bv8>, prefixLength: nat) returns (ok: bool, min: array<bv8>, max: array<bv8>)
    ensures ok <==> prefixLength <= 8 * address.Length
    ensures ok ==> min[..] == RangeMin(address[..], prefixLength) && max[..] == RangeMax(address[..], prefixLength)
  {
    var len := address.Length;
    min := new bv8[len];
    max := new bv8[len];
    ok := prefixLength <= 8 * len;
    if !ok {
      return;
    }
    var maskBytes := BuildMask(len, prefixLength);
    ghost var a, mask := address[..], maskBytes[..];
    for i := 0 to len
      invariant fresh(min) && fresh(max) && min != max && address[..] == a && maskBytes[..] == mask
      invariant forall k | 0 <= k < i :: min[k] == MaskLow(a[k], mask[k]) && max[k] == FillHigh(a[k], mask[k])
    {
      min[i] := MaskLow(address[i], maskBytes[i]);
      max[i] := FillHigh(address[i], maskBytes[i]);
    }
    MaskedRanges(a, mask, min[..], max[..], prefixLength);
  }

  lemma {:induction false} MaskedRanges(a: Bytes, mask: Bytes, lo: Bytes, hi: Bytes, n: nat)
    requires |a| == |mask| == |lo| == |hi|
    requires forall k | 0 <= k < |a| :: mask[k] == MaskByte(n, k)
    requires forall k | 0 <= k < |a| :: lo[k] == MaskLow(a[k], mask[k]) && hi[k] == FillHigh(a[k], mask[k])
    ensures lo == RangeMin(a, n) && hi == RangeMax(a, n)
  {
  }

  method BuildMask(len: nat, mask: nat) returns (maskBytes: array<bv8>)
    requires mask <= 8 * len
    ensures fresh(maskBytes) && maskBytes.Length == len
    ensures forall k | 0 <= k < len :: maskBytes[k] == MaskByte(mask, k)
  {
    maskBytes := new bv8[len](_ => 0);
    for i := 0 to mask
      invariant forall k | 0 <= k < len :: maskBytes[k] == MaskByte(i, k)
    {
      var byteId, bitIndex := i / 8, 7 - i % 8;
      NextBit(i % 8);
      assert Clamp(i - 8 * byteId) == i % 8 && Clamp(i + 1 - 8 * byteId) == i % 8 + 1;
      assert forall k | 0 <= k < len && k != byteId :: Clamp(i - 8 * k) == Clamp(i + 1 - 8 * k);
      maskBytes[byteId] := maskBytes[byteId] | (1 << bitIndex);
    }
  }
}
