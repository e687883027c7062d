/** Names as sequences of components: prefixes, the canonical name order, and the fact that the
    descendants of a name lie right behind it in that order. */
module Names {
  import opened Components

  type Name = seq<Component>

  /** Sequence prefix, `Name::isPrefixOf`. */
  predicate IsPrefix(p: Name, n: Name) { p <= n }

  function CompareNames(a: Name, b: Name): int {
    if a == [] || b == [] then |a| - |b|
    else if Compare(a[0], b[0]) != 0 then Compare(a[0], b[0])
    else CompareNames(a[1..], b[1..])
  }

  predicate NameLess(a: Name, b: Name) { CompareNames(a, b) < 0 }

  lemma {:induction false} CompareNamesFlip(a: Name, b: Name)
    ensures CompareNames(a, b) == -CompareNames(b, a)
    ensures CompareNames(a, b) == 0 <==> a == b
  {
    if a != [] && b != [] {
      CompareFlip(a[0], b[0]);
      CompareNamesFlip(a[1..], b[1..]);
      assert a == [a[0]] + a[1..] && b == [b[0]] + b[1..];
    }
  }

  lemma {:induction false} NameLessTransitive(a: Name, b: Name, c: Name)
    requires NameLess(a, b) && NameLess(b, c)
    ensures NameLess(a, c)
  {
    if a != [] && b != [] && c != [] {
      CompareTransitive(a[0], b[0], c[0]);
      CompareFlip(a[0], b[0]);
      CompareFlip(b[0], c[0]);
      CompareFlip(a[0], c[0]);
      if a[0] == b[0] == c[0] {
        NameLessTransitive(a[1..], b[1..], c[1..]);
      }
    }
  }

  lemma {:induction false} PrefixComesFirst(p: Name, n: Name)
    requires p < n
    ensures NameLess(p, n)
  {
    if p != [] {
      CompareFlip(p[0], n[0]);
      PrefixComesFirst(p[1..], n[1..]);
    }
  }

  /** The first component that differs decides. */
  lemma {:induction false} FirstDifferenceDecides(p: Name, a: Component, b: Component, s: Name, t: Name)
    requires a != b
    ensures CompareNames(p + [a] + s, p + [b] + t) == Compare(a, b)
  {
    CompareFlip(a, b);
    var m, n := p + [a] + s, p + [b] + t;
    if p != [] {
      CompareFlip(p[0], p[0]);
      assert m[1..] == p[1..] + [a] + s && n[1..] == p[1..] + [b] + t;
      FirstDifferenceDecides(p[1..], a, b, s, t);
    }
  }

  /** Between a prefix and one of its extensions the order holds only further extensions. */
  lemma {:induction false} DescendantsAreContiguous(p: Name, y: Name, z: Name)
    requires p <= z && NameLess(p, y) && NameLess(y, z)
    ensures p < y
  {
    CompareNamesFlip(p, y);
    if p != [] {
      assert p[0] == z[0];
      if y != [] {
        CompareFlip(p[0], y[0]);
        CompareFlip(y[0], z[0]);
        assert p[0] == y[0];
        DescendantsAreContiguous(p[1..], y[1..], z[1..]);
        assert p == [p[0]] + p[1..] && y == [y[0]] + y[1..];
      }
    }
  }

  /** `Name::compare` over whole names, as the library scans it. */
  method CompareScan(a: Name, b: Name) returns (r: int)
    ensures r == CompareNames(a, b)
  {
    var count := if |a| < |b| then |a| else |b|;
    for i := 0 to count
      invariant CompareNames(a, b) == CompareNames(a[i..], b[i..])
    {
      assert a[i..][1..] == a[i + 1..] && b[i..][1..] == b[i + 1..];
      var comp := Compare(a[i], b[i]);
      if comp != 0 {
        return comp;
      }
    }
    return |a| - |b|;
  }

  /** `Name::isPrefixOf`, as the library scans it. */
  method PrefixScan(p: Name, n: Name) returns (r: bool)
    ensures r == IsPrefix(p, n)
  {
    if |p| > |n| {
      return false;
    }
    for i := 0 to |p|
      invariant p[..i] == n[..i]
    {
      if p[i] != n[i] {
        return false;
      }
    }
    return true;
  }
}
