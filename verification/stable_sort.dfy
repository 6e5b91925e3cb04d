/** The stable ascending sort by price that `group_levels` applies before its
    sweep (`sorted(levels, key=lambda x: x[1])`). Python's sort is stable, so
    levels of equal price keep their input order; the sort is specified by
    that property and proved to be determined by it. */
module StableSort {
  import opened Levels

  /** The levels of `s` whose price is `p`, in their order in `s`. */
  function AtPrice(s: seq<RawLevel>, p: real): (r: seq<RawLevel>)
    ensures |r| <= |s|
  {
    if s == [] then [] else (if s[0].price == p then [s[0]] else []) + AtPrice(s[1..], p)
  }

  /** The head of `AtPrice(s, p)` is a level of `s` priced `p`. */
  lemma {:induction false} AtPriceHead(s: seq<RawLevel>, p: real)
    requires AtPrice(s, p) != []
    ensures AtPrice(s, p)[0] in s && AtPrice(s, p)[0].price == p
  {
    if s[0].price != p {
      AtPriceHead(s[1..], p);
    }
  }

  /** A non-empty sequence has a level at the price of its head. */
  lemma AtPriceOwnHead(s: seq<RawLevel>)
    requires s != []
    ensures AtPrice(s, s[0].price) != []
  {
  }

  /** `r` holds, price by price, the same levels as `s` in the same order:
      `r` is a permutation of `s` that keeps the order of equal prices. */
  ghost predicate StablePermutation(s: seq<RawLevel>, r: seq<RawLevel>) {
    forall p :: AtPrice(r, p) == AtPrice(s, p)
  }

  /** Unfolds `AtPrice` on a sequence with head `x`. */
  lemma AtPriceCons(x: RawLevel, s: seq<RawLevel>, p: real)
    ensures AtPrice([x] + s, p) == (if x.price == p then [x] else []) + AtPrice(s, p)
  {
    assert ([x] + s)[0] == x;
    assert ([x] + s)[1..] == s;
  }

  /** A level no dearer than every level of a sorted sequence can head it. */
  lemma SortedCons(h: RawLevel, t: seq<RawLevel>)
    requires SortedByPrice(t)
    requires forall y :: y in multiset(t) ==> h.price <= y.price
    ensures SortedByPrice([h] + t)
  {
    forall i, j | 0 <= i < j < |[h] + t| ensures ([h] + t)[i].price <= ([h] + t)[j].price {
      if i == 0 {
        assert ([h] + t)[j] == t[j - 1];
        assert t[j - 1] in multiset(t);
      }
    }
  }

  /** Stepping past a cheaper head keeps the per-price subsequences. */
  lemma InsertStepAtPrice(x: RawLevel, h: RawLevel, t: seq<RawLevel>, tail: seq<RawLevel>, p: real)
    requires h.price < x.price
    requires AtPrice(tail, p) == AtPrice([x] + t, p)
    ensures AtPrice([h] + tail, p) == AtPrice([x] + ([h] + t), p)
  {
    AtPriceCons(h, tail, p);
    AtPriceCons(x, t, p);
    AtPriceCons(x, [h] + t, p);
    AtPriceCons(h, t, p);
  }

  /** Insertion of `x` before the first level of `s` whose price is not
      below `x`'s: `x` lands ahead of equal prices, which came after it. */
  function Insert(x: RawLevel, s: seq<RawLevel>): (r: seq<RawLevel>)
    requires SortedByPrice(s)
    ensures SortedByPrice(r)
    ensures multiset(r) == multiset(s) + multiset{x}
    ensures forall p :: AtPrice(r, p) == AtPrice([x] + s, p)
  {
    if s == [] then [x]
    else if x.price <= s[0].price then
      SortedCons(x, s);
      [x] + s
    else
      var tail := Insert(x, s[1..]);
      InsertStep(x, s, tail);
      [s[0]] + tail
  }

  /** The recursive case of `Insert`: `x` goes into the tail behind a
      cheaper head. */
  lemma InsertStep(x: RawLevel, s: seq<RawLevel>, tail: seq<RawLevel>)
    requires s != [] && SortedByPrice(s) && s[0].price < x.price
    requires SortedByPrice(tail)
    requires multiset(tail) == multiset(s[1..]) + multiset{x}
    requires forall p :: AtPrice(tail, p) == AtPrice([x] + s[1..], p)
    ensures SortedByPrice([s[0]] + tail)
    ensures multiset([s[0]] + tail) == multiset(s) + multiset{x}
    ensures forall p :: AtPrice([s[0]] + tail, p) == AtPrice([x] + s, p)
  {
    assert s == [s[0]] + s[1..];
    HeadBelowInsert(x, s, tail);
    SortedCons(s[0], tail);
    forall p ensures AtPrice([s[0]] + tail, p) == AtPrice([x] + s, p) {
      InsertStepAtPrice(x, s[0], s[1..], tail, p);
    }
  }

  /** The head of a sorted `s` is at most every level of `s`'s tail with a
      dearer `x` added. */
  lemma HeadBelowInsert(x: RawLevel, s: seq<RawLevel>, tail: seq<RawLevel>)
    requires s != [] && SortedByPrice(s) && s[0].price < x.price
    requires multiset(tail) == multiset(s[1..]) + multiset{x}
    ensures forall y :: y in multiset(tail) ==> s[0].price <= y.price
  {
    forall y | y in multiset(tail) ensures s[0].price <= y.price {
      if y != x {
        assert y in multiset(s[1..]);
        var k :| 0 <= k < |s[1..]| && s[1..][k] == y;
        assert s[k + 1] == y;
      }
    }
  }

  /** `sorted(levels, key=price)`, as an insertion sort. */
  function SortByPrice(s: seq<RawLevel>): (r: seq<RawLevel>)
    ensures SortedByPrice(r)
    ensures multiset(r) == multiset(s)
    ensures |r| == |s|
    ensures StablePermutation(s, r)
  {
    if s == [] then []
    else
      var tail := SortByPrice(s[1..]);
      assert s == [s[0]] + s[1..];
      assert multiset(Insert(s[0], tail)) == multiset(s);
      assert StablePermutation(s, Insert(s[0], tail)) by {
        forall p ensures AtPrice(Insert(s[0], tail), p) == AtPrice(s, p) {
          AtPriceCons(s[0], tail, p);
          AtPriceCons(s[0], s[1..], p);
        }
      }
      Insert(s[0], tail)
  }

  /** The sorted stable permutation of a sequence is unique, so every stable
      sort by price, Python's included, computes `SortByPrice`. */
  lemma {:induction false} SortedStableUnique(a: seq<RawLevel>, b: seq<RawLevel>)
    requires SortedByPrice(a) && SortedByPrice(b)
    requires forall p :: AtPrice(a, p) == AtPrice(b, p)
    ensures a == b
  {
    if a != [] && b != [] {
      AtPriceCons(a[0], a[1..], a[0].price);
      AtPriceCons(b[0], b[1..], b[0].price);
      assert a == [a[0]] + a[1..];
      assert b == [b[0]] + b[1..];
      AtPriceHead(b, a[0].price);
      AtPriceHead(a, b[0].price);
      assert a[0].price == b[0].price;
      assert a[0] == b[0];
      forall p ensures AtPrice(a[1..], p) == AtPrice(b[1..], p) {
        AtPriceCons(a[0], a[1..], p);
        AtPriceCons(b[0], b[1..], p);
        var h := if a[0].price == p then [a[0]] else [];
        assert h + AtPrice(a[1..], p) == h + AtPrice(b[1..], p);
        assert AtPrice(a[1..], p) == (h + AtPrice(a[1..], p))[|h|..];
        assert AtPrice(b[1..], p) == (h + AtPrice(b[1..], p))[|h|..];
      }
      SortedStableUnique(a[1..], b[1..]);
    } else if a != [] {
      AtPriceOwnHead(a);
      assert false;
    } else if b != [] {
      AtPriceOwnHead(b);
      assert false;
    }
  }

  /** Corollary: a sorted stable permutation of `s` is `SortByPrice(s)`. */
  lemma SortByPriceIsTheStableSort(s: seq<RawLevel>, r: seq<RawLevel>)
    requires SortedByPrice(r) && StablePermutation(s, r)
    ensures r == SortByPrice(s)
  {
    SortedStableUnique(r, SortByPrice(s));
  }
}
