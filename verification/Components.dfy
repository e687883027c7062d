/** Name components: the canonical order and the two ways the library computes it.

    `Compare` is the order the NDN Packet Format Specification calls canonical (section "Name",
    "Canonical Order"): TLV-TYPE, then TLV-LENGTH, then the value bytes. `CompareFields` is the
    field-wise branch of the library, with its conversions to a 32-bit `int`; `CompareWire` is the
    fast branch, one memcmp over the two TLV encodings. */
module Components {
  import opened Options

  type Byte = x: int | 0 <= x < 256

  datatype Component = Component(typ: nat, value: seq<Byte>)

  const GENERIC_TYPE: nat := 8
  const IMPLICIT_DIGEST_TYPE: nat := 1
  const DIGEST_SIZE: nat := 32

  predicate IsGeneric(c: Component) { c.typ == GENERIC_TYPE }

  predicate IsImplicitDigest(c: Component) { c.typ == IMPLICIT_DIGEST_TYPE && |c.value| == DIGEST_SIZE }

  /** C's memcmp: the difference of the first two bytes that differ. */
  function Memcmp(a: seq<Byte>, b: seq<Byte>, n: nat): int
    requires n <= |a| && n <= |b|
  {
    if n == 0 then 0
    else if a[0] != b[0] then a[0] - b[0]
    else Memcmp(a[1..], b[1..], n - 1)
  }

  function Compare(a: Component, b: Component): int {
    if a.typ != b.typ then a.typ - b.typ
    else if |a.value| != |b.value| then |a.value| - |b.value|
    else Memcmp(a.value, b.value, |a.value|)
  }

  predicate Less(a: Component, b: Component) { Compare(a, b) < 0 }

  function Sign(x: int): int { if x < 0 then -1 else if x == 0 then 0 else 1 }

  // ---- The canonical order is a total order ----

  lemma {:induction false} MemcmpFlip(a: seq<Byte>, b: seq<Byte>, n: nat)
    requires n <= |a| && n <= |b|
    ensures Memcmp(a, b, n) == -Memcmp(b, a, n)
    ensures Memcmp(a, b, n) == 0 <==> a[..n] == b[..n]
  {
    if n > 0 {
      assert a[..n] == [a[0]] + a[1..][..n - 1];
      assert b[..n] == [b[0]] + b[1..][..n - 1];
      if a[0] == b[0] {
        MemcmpFlip(a[1..], b[1..], n - 1);
      } else {
        assert a[..n][0] != b[..n][0];
      }
    }
  }

  lemma {:induction false} MemcmpTransitive(a: seq<Byte>, b: seq<Byte>, c: seq<Byte>, n: nat)
    requires n <= |a| && n <= |b| && n <= |c|
    requires Memcmp(a, b, n) <= 0 && Memcmp(b, c, n) <= 0
    ensures Memcmp(a, c, n) <= 0
    ensures Memcmp(a, b, n) < 0 || Memcmp(b, c, n) < 0 ==> Memcmp(a, c, n) < 0
  {
    if n > 0 && a[0] == b[0] == c[0] {
      MemcmpTransitive(a[1..], b[1..], c[1..], n - 1);
    }
  }

  lemma {:induction false} CompareFlip(a: Component, b: Component)
    ensures Compare(a, b) == -Compare(b, a)
    ensures Compare(a, b) == 0 <==> a == b
  {
    if a.typ == b.typ && |a.value| == |b.value| {
      MemcmpFlip(a.value, b.value, |a.value|);
      assert a.value[..|a.value|] == a.value && b.value[..|a.value|] == b.value;
    }
  }

  lemma {:induction false} CompareTransitive(a: Component, b: Component, c: Component)
    requires Compare(a, b) <= 0 && Compare(b, c) <= 0
    ensures Compare(a, c) <= 0
    ensures Compare(a, b) < 0 || Compare(b, c) < 0 ==> Compare(a, c) < 0
  {
    if a.typ == b.typ == c.typ && |a.value| == |b.value| == |c.value| {
      MemcmpTransitive(a.value, b.value, c.value, |a.value|);
    }
  }

  /** What decides the order: the type, then the length, then the first byte that differs. */
  lemma {:induction false} OrderDecidedBy(a: Component, b: Component)
    ensures a.typ < b.typ ==> Compare(a, b) < 0
    ensures a.typ == b.typ && |a.value| < |b.value| ==> Compare(a, b) < 0
  {
  }

  lemma {:induction false} FirstByteDecides(typ: nat, p: seq<Byte>, x: Byte, y: Byte, s: seq<Byte>, t: seq<Byte>)
    requires x < y && |s| == |t|
    ensures Compare(Component(typ, p + [x] + s), Component(typ, p + [y] + t)) < 0
  {
    MemcmpCommonPrefix(p, [x] + s, [y] + t, 1 + |s|);
    assert p + [x] + s == p + ([x] + s) && p + [y] + t == p + ([y] + t);
  }

  // ---- The field-wise branch ----

  /** What a conversion of `x` to a 32-bit signed integer yields. */
  function ToInt32(x: int): int {
    var m := x % 0x1_0000_0000;
    if m < 0x8000_0000 then m else m - 0x1_0000_0000
  }

  /** The field-wise branch. When the truncated size difference is 0 although the sizes differ, the
      library's memcmp would read `|a.value|` bytes of `b`: `Overrun` stands for that. */
  datatype Comparison = Result(sign: int) | Overrun

  function CompareFields(a: Component, b: Component): Comparison {
    var cmpType := ToInt32(a.typ - b.typ);
    if cmpType != 0 then Result(cmpType)
    else
      var cmpSize := ToInt32(|a.value| - |b.value|);
      if cmpSize != 0 then Result(cmpSize)
      else if |a.value| == 0 then Result(0)
      else if |b.value| < |a.value| then Overrun
      else Result(Memcmp(a.value, b.value, |a.value|))
  }

  predicate FitsInt(x: int) { -0x8000_0000 <= x < 0x8000_0000 }

  lemma {:induction false} Int32Keeps(x: int)
    ensures ToInt32(x) == x <==> FitsInt(x)
    ensures FitsInt(ToInt32(x)) && (ToInt32(x) == 0 && x != 0 ==> !FitsInt(x))
  {
  }

  lemma {:induction false} MemcmpIsSmall(a: seq<Byte>, b: seq<Byte>, n: nat)
    requires n <= |a| && n <= |b|
    ensures -255 <= Memcmp(a, b, n) <= 255
  {
    if n > 0 && a[0] == b[0] {
      MemcmpIsSmall(a[1..], b[1..], n - 1);
    }
  }

  /** The field-wise branch computes the canonical order if and only if the difference that decides,
      of the types or else of the sizes, fits an `int`. */
  lemma {:induction false} FieldsAreCanonical(a: Component, b: Component)
    ensures CompareFields(a, b) == Result(Compare(a, b)) <==>
            FitsInt(a.typ - b.typ) && (a.typ == b.typ ==> FitsInt(|a.value| - |b.value|))
  {
    Int32Keeps(a.typ - b.typ);
    Int32Keeps(|a.value| - |b.value|);
    if |a.value| <= |b.value| {
      MemcmpIsSmall(a.value, b.value, |a.value|);
    }
    if |a.value| == 0 {
      assert Memcmp(a.value, b.value, 0) == 0;
    }
  }

  // ---- The wire branch ----

  /** `k` big-endian bytes of `x`. */
  function BigEndian(x: nat, k: nat): (s: seq<Byte>)
    ensures |s| == k
  {
    if k == 0 then [] else BigEndian(x / 256, k - 1) + [x % 256]
  }

  /** The shortest VAR-NUMBER form, as the encoder writes it. */
  function VarNumber(x: nat): (s: seq<Byte>)
    ensures |s| >= 1
  {
    if x < 253 then [x]
    else if x <= 0xffff then [253] + BigEndian(x, 2)
    else if x <= 0xffff_ffff then [254] + BigEndian(x, 4)
    else [255] + BigEndian(x, 8)
  }

  /** The number that big-endian bytes stand for. */
  function FromBytes(s: seq<Byte>): nat {
    if s == [] then 0 else 256 * FromBytes(s[..|s| - 1]) + s[|s| - 1]
  }

  /** Reading a VAR-NUMBER by its first byte: the number and what follows it. */
  function ReadVarNumber(s: seq<Byte>): Option<(nat, seq<Byte>)> {
    if s == [] then None
    else
      var k := if s[0] == 253 then 2 else if s[0] == 254 then 4 else if s[0] == 255 then 8 else 0;
      if s[0] < 253 then Some((s[0], s[1..]))
      else if |s| < 1 + k then None
      else Some((FromBytes(s[1..1 + k]), s[1 + k..]))
  }

  lemma {:induction false} BigEndianReads(x: nat, k: nat)
    requires x < Pow256(k)
    ensures FromBytes(BigEndian(x, k)) == x
  {
    if k > 0 {
      BigEndianReads(x / 256, k - 1);
      assert BigEndian(x, k)[..k - 1] == BigEndian(x / 256, k - 1);
    }
  }

  lemma {:induction false} BytesAreSmall(s: seq<Byte>)
    ensures FromBytes(s) < Pow256(|s|)
  {
    if s != [] {
      BytesAreSmall(s[..|s| - 1]);
    }
  }

  lemma {:induction false} TaggedReads(tag: Byte, x: nat, k: nat, rest: seq<Byte>)
    requires x < Pow256(k) && ((tag == 253 && k == 2) || (tag == 254 && k == 4) || (tag == 255 && k == 8))
    ensures ReadVarNumber([tag] + BigEndian(x, k) + rest) == Some((x, rest))
  {
    var s := [tag] + BigEndian(x, k) + rest;
    BigEndianReads(x, k);
    assert s[1..1 + k] == BigEndian(x, k) && s[1 + k..] == rest;
  }

  /** What was written is read back, whatever follows. */
  lemma {:induction false} VarNumberReads(x: nat, rest: seq<Byte>)
    requires FitsUint64(x)
    ensures ReadVarNumber(VarNumber(x) + rest) == Some((x, rest))
  {
    Pow256Values();
    if x < 253 {
      assert ([x] + rest)[1..] == rest;
    } else if x <= 0xffff {
      TaggedReads(253, x, 2, rest);
    } else if x <= 0xffff_ffff {
      TaggedReads(254, x, 4, rest);
    } else {
      TaggedReads(255, x, 8, rest);
    }
  }

  /** Whatever bytes read as the number, the written form is not longer. */
  lemma {:induction false} VarNumberIsShortest(s: seq<Byte>)
    requires ReadVarNumber(s).Some? && ReadVarNumber(s).value.1 == []
    ensures |VarNumber(ReadVarNumber(s).value.0)| <= |s|
  {
    Pow256Values();
    if s[0] >= 253 {
      var k := if s[0] == 253 then 2 else if s[0] == 254 then 4 else 8;
      BytesAreSmall(s[1..1 + k]);
    }
  }

  function Wire(c: Component): seq<Byte> {
    VarNumber(c.typ) + VarNumber(|c.value|) + c.value
  }

  function Min(x: nat, y: nat): nat { if x < y then x else y }

  function CompareWire(a: Component, b: Component): int {
    Memcmp(Wire(a), Wire(b), Min(|Wire(a)|, |Wire(b)|))
  }

  /** `s` and `t` first differ at position `i`, where `s` is smaller. */
  predicate DropsAt(s: seq<Byte>, t: seq<Byte>, i: nat) {
    i < |s| && i < |t| && s[..i] == t[..i] && s[i] < t[i]
  }

  lemma {:induction false} DropDecides(s: seq<Byte>, t: seq<Byte>, i: nat, n: nat)
    requires DropsAt(s, t, i) && i < n <= |s| && n <= |t|
    ensures Memcmp(s, t, n) < 0
  {
    if i > 0 {
      assert s[0] == s[..i][0] == t[..i][0] == t[0];
      assert s[1..][..i - 1] == s[..i][1..] == t[..i][1..] == t[1..][..i - 1];
      DropDecides(s[1..], t[1..], i - 1, n - 1);
    }
  }

  lemma {:induction false} DropKeeps(p: seq<Byte>, s: seq<Byte>, t: seq<Byte>, s': seq<Byte>, t': seq<Byte>, i: nat)
    requires DropsAt(s, t, i)
    ensures DropsAt(p + (s + s'), p + (t + t'), |p| + i)
  {
    var u, v := p + (s + s'), p + (t + t');
    assert u[..|p| + i] == p + s[..i] && v[..|p| + i] == p + t[..i];
  }

  ghost function Pow256(k: nat): (r: nat)
    ensures r >= 1
  {
    if k == 0 then 1 else 256 * Pow256(k - 1)
  }

  lemma {:induction false} Pow256Values()
    ensures Pow256(2) == 0x1_0000 && Pow256(4) == 0x1_0000_0000 && Pow256(8) == 0x1_0000_0000_0000_0000
  {
    assert Pow256(1) == 256 * Pow256(0);
    assert Pow256(2) == 256 * Pow256(1);
    assert Pow256(3) == 256 * Pow256(2);
    assert Pow256(4) == 256 * Pow256(3);
    assert Pow256(5) == 256 * Pow256(4);
    assert Pow256(6) == 256 * Pow256(5);
    assert Pow256(7) == 256 * Pow256(6);
  }

  /** Big-endian encoding of equal width preserves order. */
  lemma {:induction false} BigEndianOrder(x: nat, y: nat, k: nat) returns (i: nat)
    requires x < y < Pow256(k)
    ensures i < k && DropsAt(BigEndian(x, k), BigEndian(y, k), i)
  {
    if x / 256 == y / 256 {
      i := k - 1;
      assert BigEndian(x, k)[..i] == BigEndian(x / 256, k - 1);
      assert BigEndian(y, k)[..i] == BigEndian(y / 256, k - 1);
    } else {
      i := BigEndianOrder(x / 256, y / 256, k - 1);
      DropKeeps([], BigEndian(x / 256, k - 1), BigEndian(y / 256, k - 1), [x % 256], [y % 256], i);
      assert [] + (BigEndian(x / 256, k - 1) + [x % 256]) == BigEndian(x, k);
      assert [] + (BigEndian(y / 256, k - 1) + [y % 256]) == BigEndian(y, k);
    }
  }

  predicate FitsUint64(x: nat) { x < 0x1_0000_0000_0000_0000 }

  lemma {:induction false} TaggedOrder(tag: Byte, x: nat, y: nat, k: nat) returns (i: nat)
    requires x < y < Pow256(k)
    ensures DropsAt([tag] + BigEndian(x, k), [tag] + BigEndian(y, k), i)
  {
    var j := BigEndianOrder(x, y, k);
    DropKeeps([tag], BigEndian(x, k), BigEndian(y, k), [], [], j);
    assert BigEndian(x, k) + [] == BigEndian(x, k) && BigEndian(y, k) + [] == BigEndian(y, k);
    i := j + 1;
  }

  /** VAR-NUMBER is order-preserving and prefix-free: two numbers already differ inside both codes. */
  lemma {:induction false} VarNumberOrder(x: nat, y: nat) returns (i: nat)
    requires x < y && FitsUint64(y)
    ensures DropsAt(VarNumber(x), VarNumber(y), i)
  {
    Pow256Values();
    if 253 <= x && y <= 0xffff {
      i := TaggedOrder(253, x, y, 2);
    } else if 0xffff < x && y <= 0xffff_ffff {
      i := TaggedOrder(254, x, y, 4);
    } else if 0xffff_ffff < x {
      i := TaggedOrder(255, x, y, 8);
    } else {
      i := 0;
    }
  }

  lemma {:induction false} MemcmpCommonPrefix(p: seq<Byte>, s: seq<Byte>, t: seq<Byte>, n: nat)
    requires n <= |s| && n <= |t|
    ensures Memcmp(p + s, p + t, |p| + n) == Memcmp(s, t, n)
  {
    if p == [] {
      assert p + s == s && p + t == t;
    } else {
      assert (p + s)[1..] == p[1..] + s && (p + t)[1..] == p[1..] + t;
      MemcmpCommonPrefix(p[1..], s, t, n);
    }
  }

  /** A drop inside a field decides a memcmp over everything around it. */
  lemma {:induction false} DropWins(p: seq<Byte>, s: seq<Byte>, t: seq<Byte>, s': seq<Byte>, t': seq<Byte>, i: nat)
    requires DropsAt(s, t, i)
    ensures var u, v := p + (s + s'), p + (t + t'); Memcmp(u, v, Min(|u|, |v|)) < 0
  {
    DropKeeps(p, s, t, s', t', i);
    DropDecides(p + (s + s'), p + (t + t'), |p| + i, Min(|p + (s + s')|, |p + (t + t')|));
  }

  lemma {:induction false} WireLess(a: Component, b: Component)
    requires FitsUint64(a.typ) && FitsUint64(b.typ) && FitsUint64(|a.value|) && FitsUint64(|b.value|)
    requires Compare(a, b) < 0
    ensures CompareWire(a, b) < 0
  {
    if a.typ != b.typ {
      WireLessType(a, b);
    } else if |a.value| != |b.value| {
      WireLessLength(a, b);
    } else {
      var p := VarNumber(a.typ) + VarNumber(|a.value|);
      MemcmpCommonPrefix(p, a.value, b.value, |a.value|);
    }
  }

  lemma {:induction false} WireLessType(a: Component, b: Component)
    requires a.typ < b.typ && FitsUint64(b.typ)
    ensures CompareWire(a, b) < 0
  {
    var i := VarNumberOrder(a.typ, b.typ);
    var ra, rb := VarNumber(|a.value|) + a.value, VarNumber(|b.value|) + b.value;
    DropWins([], VarNumber(a.typ), VarNumber(b.typ), ra, rb, i);
    assert [] + (VarNumber(a.typ) + ra) == Wire(a);
    assert [] + (VarNumber(b.typ) + rb) == Wire(b);
  }

  lemma {:induction false} WireLessLength(a: Component, b: Component)
    requires a.typ == b.typ && |a.value| < |b.value| && FitsUint64(|b.value|)
    ensures CompareWire(a, b) < 0
  {
    var i := VarNumberOrder(|a.value|, |b.value|);
    var p := VarNumber(a.typ);
    DropWins(p, VarNumber(|a.value|), VarNumber(|b.value|), a.value, b.value, i);
    assert p + (VarNumber(|a.value|) + a.value) == Wire(a);
    assert p + (VarNumber(|b.value|) + b.value) == Wire(b);
  }

  /** One memcmp over the shorter wire length decides the canonical order, and is zero only for
      equal components. */
  lemma {:induction false} WireIsCanonical(a: Component, b: Component)
    requires FitsUint64(a.typ) && FitsUint64(b.typ) && FitsUint64(|a.value|) && FitsUint64(|b.value|)
    ensures Sign(CompareWire(a, b)) == Sign(Compare(a, b))
    ensures CompareWire(a, b) == 0 <==> a == b
  {
    CompareFlip(a, b);
    MemcmpFlip(Wire(a), Wire(b), Min(|Wire(a)|, |Wire(b)|));
    if Compare(a, b) < 0 {
      WireLess(a, b);
    } else if Compare(b, a) < 0 {
      WireLess(b, a);
    }
  }
}
