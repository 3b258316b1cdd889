/** The two standard-library building blocks that `CardDeck.initialize` combines:
    Python's `range(lo, hi)` and `itertools.product(xs, ys)` over two finite sequences. */
module Itertools {

  /** No element occurs twice. */
  predicate Distinct<T(==)>(s: seq<T>) {
    forall i, j :: 0 <= i < j < |s| ==> s[i] != s[j]
  }

  /** Python's `range(lo, hi)`: the integers lo, lo + 1, ..., hi - 1, empty when hi <= lo. */
  function Range(lo: int, hi: int): seq<int> {
    seq(if lo < hi then hi - lo else 0, i => lo + i)
  }

  /** One row of the product: `(x, y)` for every y in order (the inner loop of `itertools.product`). */
  function Row<A, B>(x: A, ys: seq<B>): seq<(A, B)> {
    if ys == [] then [] else [(x, ys[0])] + Row(x, ys[1..])
  }

  /** `itertools.product(xs, ys)`: the outer loop runs over xs, the inner loop over ys,
      so the last factor varies fastest. */
  function Product<A, B>(xs: seq<A>, ys: seq<B>): seq<(A, B)> {
    if xs == [] then [] else Row(xs[0], ys) + Product(xs[1..], ys)
  }

  lemma {:induction false} RangeMembership(lo: int, hi: int, k: int)
    ensures k in Range(lo, hi) <==> lo <= k < hi
  {
    var r := Range(lo, hi);
    if lo <= k < hi {
      assert r[k - lo] == k;
    }
  }

  lemma {:induction false} RangeDistinct(lo: int, hi: int)
    ensures Distinct(Range(lo, hi))
  {
  }

  /** A row has one pair per element of ys, in the same order. */
  lemma {:induction false} RowAt<A, B>(x: A, ys: seq<B>)
    ensures |Row(x, ys)| == |ys|
    ensures forall j :: 0 <= j < |ys| ==> Row(x, ys)[j] == (x, ys[j])
  {
    if ys != [] {
      RowAt(x, ys[1..]);
    }
  }

  /** The product has |xs| * |ys| entries. */
  lemma {:induction false} ProductLength<A, B>(xs: seq<A>, ys: seq<B>)
    ensures |Product(xs, ys)| == |xs| * |ys|
  {
    if xs != [] {
      RowAt(xs[0], ys);
      ProductLength(xs[1..], ys);
    }
  }

  /** The product over xs is the product over the first q elements of xs followed by
      the product over the rest. */
  lemma {:induction false} ProductSplit<A, B>(xs: seq<A>, ys: seq<B>, q: int)
    requires 0 <= q <= |xs|
    ensures Product(xs, ys) == Product(xs[..q], ys) + Product(xs[q..], ys)
  {
    if q > 0 {
      var tail := xs[1..];
      ProductSplit(tail, ys, q - 1);
      assert xs[..q][1..] == tail[..q - 1];
      assert xs[q..] == tail[q - 1..];
    }
  }

  /** Row q, column r of the product is `(xs[q], ys[r])`; it follows the q full rows before it
      (ProductLength gives that offset as q * |ys|): the order is x-major, y-minor. */
  lemma ProductAt<A, B>(xs: seq<A>, ys: seq<B>, q: int, r: int)
    requires 0 <= q < |xs| && 0 <= r < |ys|
    ensures |Product(xs[..q], ys)| + r < |Product(xs, ys)|
    ensures Product(xs, ys)[|Product(xs[..q], ys)| + r] == (xs[q], ys[r])
  {
    ProductSplit(xs, ys, q);
    var later := xs[q..];
    RowAt(xs[q], ys);
    assert later[0] == xs[q];
    assert Product(later, ys) == Row(xs[q], ys) + Product(later[1..], ys);
  }

  /** A pair is in the product exactly when its first part is in xs and its second in ys. */
  lemma {:induction false} ProductMembership<A, B>(xs: seq<A>, ys: seq<B>, p: (A, B))
    ensures p in Product(xs, ys) <==> p.0 in xs && p.1 in ys
  {
    if xs != [] {
      RowAt(xs[0], ys);
      ProductMembership(xs[1..], ys, p);
      assert p.0 in xs <==> p.0 == xs[0] || p.0 in xs[1..] by {
        assert xs == [xs[0]] + xs[1..];
      }
    }
  }

  /** Distinct factors give a product with no repeated pair. */
  lemma {:induction false} ProductDistinct<A, B>(xs: seq<A>, ys: seq<B>)
    requires Distinct(xs) && Distinct(ys)
    ensures Distinct(Product(xs, ys))
  {
    if xs != [] {
      var row, rest := Row(xs[0], ys), Product(xs[1..], ys);
      RowAt(xs[0], ys);
      ProductDistinct(xs[1..], ys);
      var p := row + rest;
      forall i, j | 0 <= i < j < |p|
        ensures p[i] != p[j]
      {
        if i < |row| <= j {
          ProductMembership(xs[1..], ys, p[j]);
          assert p[j] in rest;
          assert xs[0] !in xs[1..];
        }
      }
    }
  }

  /** In a sequence without repeats every value occurs once or not at all. */
  lemma {:induction false} DistinctMultiplicity<T>(s: seq<T>, v: T)
    requires Distinct(s)
    ensures multiset(s)[v] == if v in s then 1 else 0
  {
    if s != [] {
      assert s == [s[0]] + s[1..];
      assert Distinct(s[1..]);
      DistinctMultiplicity(s[1..], v);
      assert s[0] !in s[1..];
    }
  }

  /** Over distinct factors, every pair of the product occurs exactly once and nothing else occurs. */
  lemma ProductMultiplicity<A, B>(xs: seq<A>, ys: seq<B>, p: (A, B))
    requires Distinct(xs) && Distinct(ys)
    ensures multiset(Product(xs, ys))[p] == if p.0 in xs && p.1 in ys then 1 else 0
  {
    ProductDistinct(xs, ys);
    DistinctMultiplicity(Product(xs, ys), p);
    ProductMembership(xs, ys, p);
  }

  lemma PermutationLength<T>(s: seq<T>, t: seq<T>)
    requires multiset(t) == multiset(s)
    ensures |t| == |s|
  {
    assert |t| == |multiset(t)| == |multiset(s)| == |s|;
  }

  /** Reordering a sequence without repeats gives a sequence without repeats. */
  lemma PermutationDistinct<T>(s: seq<T>, t: seq<T>)
    requires Distinct(s) && multiset(t) == multiset(s)
    ensures Distinct(t)
  {
    forall i, j | 0 <= i < j < |t|
      ensures t[i] != t[j]
    {
      if t[i] == t[j] {
        var rest := t[..i] + t[i + 1..];
        assert t == t[..i] + [t[i]] + t[i + 1..];
        assert rest[j - 1] == t[j];
        assert multiset(t)[t[i]] == multiset(rest)[t[i]] + 1;
        assert t[i] in multiset(rest);
        DistinctMultiplicity(s, t[i]);
        assert false;
      }
    }
  }
}
