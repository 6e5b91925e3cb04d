/** `group_levels`: the stable price sort followed by a sweep that chains
    levels into groups, and the summary of each group as a grouped level. */
module Grouping {
  import opened Levels
  import opened StableSort

  /** The default `threshold` of `group_levels`. */
  const DefaultThreshold: real := 0.15

  function Last(g: seq<RawLevel>): RawLevel
    requires g != []
  {
    g[|g| - 1]
  }

  /** Each member of `g` is within `threshold` above the member before it:
      the chained (not anchor-based) distance of the sweep. */
  predicate Chained(g: seq<RawLevel>, threshold: real) {
    forall k :: 0 < k < |g| ==> g[k].price - g[k - 1].price <= threshold
  }

  /** The groups laid end to end. */
  function Flatten(gs: seq<seq<RawLevel>>): seq<RawLevel> {
    if gs == [] then [] else gs[0] + Flatten(gs[1..])
  }

  /** The shape the sweep gives its groups: none is empty, each is chained,
      and each starts more than `threshold` above the end of the one before. */
  predicate WellSplit(gs: seq<seq<RawLevel>>, threshold: real) {
    && (forall k :: 0 <= k < |gs| ==> gs[k] != [] && Chained(gs[k], threshold))
    && (forall k :: 0 < k < |gs| ==> gs[k][0].price - Last(gs[k - 1]).price > threshold)
  }

  /** `current` with the groups `gs` laid out after its first group's head:
      `current` opens the first group. */
  predicate OpensFirst(current: seq<RawLevel>, gs: seq<seq<RawLevel>>) {
    current != [] ==> gs != [] && |current| <= |gs[0]| && gs[0][..|current|] == current
  }

  lemma FlattenCons(g: seq<RawLevel>, gs: seq<seq<RawLevel>>)
    ensures Flatten([g] + gs) == g + Flatten(gs)
  {
    assert ([g] + gs)[0] == g;
    assert ([g] + gs)[1..] == gs;
  }

  /** Appending a level within `threshold` of the last member keeps a group
      chained. */
  lemma ChainedSnoc(g: seq<RawLevel>, x: RawLevel, threshold: real)
    requires Chained(g, threshold)
    requires g != [] ==> x.price - Last(g).price <= threshold
    ensures Chained(g + [x], threshold)
  {
    forall k | 0 < k < |g + [x]| ensures (g + [x])[k].price - (g + [x])[k - 1].price <= threshold {
      if k < |g| {
        assert (g + [x])[k] == g[k] && (g + [x])[k - 1] == g[k - 1];
      }
    }
  }

  /** Closing group `current` before a sweep that starts with `x`. */
  lemma CloseGroup(current: seq<RawLevel>, x: RawLevel, tail: seq<seq<RawLevel>>, threshold: real)
    requires current != [] && Chained(current, threshold)
    requires WellSplit(tail, threshold) && OpensFirst([x], tail)
    requires x.price - Last(current).price > threshold
    ensures WellSplit([current] + tail, threshold)
  {
    assert tail[0][0] == tail[0][..1][0] == x;
    var gs: seq<seq<RawLevel>> := [current] + tail;
    forall k | 0 < k < |gs| ensures gs[k][0].price - Last(gs[k - 1]).price > threshold {
      assert gs[k] == tail[k - 1];
      if k > 1 {
        assert gs[k - 1] == tail[k - 2];
      }
    }
  }

  /** The sweep of `group_levels` over the remaining levels `rest` with the
      open group `current`. A level within `threshold` of the last member
      joins the group; otherwise the group is closed and the level opens the
      next; the open group is flushed at the end. */
  function Sweep(rest: seq<RawLevel>, current: seq<RawLevel>, threshold: real): (gs: seq<seq<RawLevel>>)
    requires Chained(current, threshold)
    decreases |rest|
    ensures Flatten(gs) == current + rest
    ensures WellSplit(gs, threshold)
    ensures OpensFirst(current, gs)
    ensures current == [] && rest != [] ==> gs != [] && gs[0][0] == rest[0]
    ensures |gs| <= |current + rest|
  {
    if rest == [] then
      if current == [] then [] else FlattenCons(current, []); [current]
    else if current == [] || rest[0].price - Last(current).price <= threshold then
      ChainedSnoc(current, rest[0], threshold);
      var gs := Sweep(rest[1..], current + [rest[0]], threshold);
      JoinStep(current, rest, gs);
      gs
    else
      var tail := Sweep(rest[1..], [rest[0]], threshold);
      CloseStep(current, rest, tail, threshold);
      [current] + tail
  }

  /** The sweep's join branch: groups opened by `current` plus the next
      level are opened by `current` and cover `current + rest`. */
  lemma JoinStep(current: seq<RawLevel>, rest: seq<RawLevel>, gs: seq<seq<RawLevel>>)
    requires rest != []
    requires Flatten(gs) == current + [rest[0]] + rest[1..]
    requires OpensFirst(current + [rest[0]], gs)
    requires |gs| <= |current + [rest[0]] + rest[1..]|
    ensures Flatten(gs) == current + rest
    ensures OpensFirst(current, gs)
    ensures current == [] ==> gs[0][0] == rest[0]
    ensures |gs| <= |current + rest|
  {
    assert current + [rest[0]] + rest[1..] == current + rest;
    assert gs[0][..|current|] == (gs[0][..|current| + 1])[..|current|];
  }

  /** The sweep's close branch: `current` becomes a group of its own in
      front of the groups of the remaining levels. */
  lemma CloseStep(current: seq<RawLevel>, rest: seq<RawLevel>, tail: seq<seq<RawLevel>>, threshold: real)
    requires rest != [] && current != [] && Chained(current, threshold)
    requires rest[0].price - Last(current).price > threshold
    requires Flatten(tail) == [rest[0]] + rest[1..]
    requires WellSplit(tail, threshold) && OpensFirst([rest[0]], tail)
    requires |tail| <= |[rest[0]] + rest[1..]|
    ensures Flatten([current] + tail) == current + rest
    ensures WellSplit([current] + tail, threshold)
    ensures OpensFirst(current, [current] + tail)
    ensures |[current] + tail| <= |current + rest|
  {
    FlattenCons(current, tail);
    CloseGroup(current, rest[0], tail, threshold);
    assert [rest[0]] + rest[1..] == rest;
    assert ([current] + tail)[0] == current;
  }

  /** When the first group is exactly `current`, the second group opens with
      the first level after it. */
  lemma NextGroupOpensRest(gs: seq<seq<RawLevel>>, current: seq<RawLevel>, rest: seq<RawLevel>, threshold: real)
    requires WellSplit(gs, threshold) && gs != [] && Flatten(gs) == current + rest
    requires gs[0] == current && rest != []
    ensures |gs| > 1 && gs[1][0] == rest[0]
  {
    assert Flatten(gs) == gs[0] + Flatten(gs[1..]);
    assert Flatten(gs[1..]) == (gs[0] + Flatten(gs[1..]))[|gs[0]|..];
    assert gs[1..] != [];
    assert Flatten(gs[1..]) == gs[1] + Flatten(gs[2..]) by {
      assert gs[1..][0] == gs[1] && gs[1..][1..] == gs[2..];
    }
  }

  /** When the first group reaches past `current`, the level after
      `current` is within `threshold` of `current`'s last member. */
  lemma FirstGroupExtends(gs: seq<seq<RawLevel>>, current: seq<RawLevel>, rest: seq<RawLevel>, threshold: real)
    requires WellSplit(gs, threshold) && Flatten(gs) == current + rest && OpensFirst(current, gs)
    requires current != [] && |gs[0]| > |current|
    ensures rest != [] && rest[0].price - Last(current).price <= threshold
  {
    var n := |current|;
    assert Flatten(gs) == gs[0] + Flatten(gs[1..]);
    assert gs[0][n] == Flatten(gs)[n];
    assert gs[0][n - 1] == gs[0][..n][n - 1] == current[n - 1];
  }

  /** The sweep is the only way to cut a sequence into well-split groups
      opened by `current`: the shape predicates define the grouping. */
  lemma {:induction false} SweepUnique(rest: seq<RawLevel>, current: seq<RawLevel>, threshold: real,
                                       gs: seq<seq<RawLevel>>)
    requires Chained(current, threshold)
    requires WellSplit(gs, threshold) && Flatten(gs) == current + rest && OpensFirst(current, gs)
    decreases |rest|
    ensures gs == Sweep(rest, current, threshold)
  {
    if gs != [] {
      assert Flatten(gs) == gs[0] + Flatten(gs[1..]);
    }
    if rest == [] {
      if current == [] {
        if gs != [] {
          assert false;
        }
      } else {
        assert gs[0] == current;
        if gs[1..] != [] {
          assert false;
        }
        assert gs == [current];
      }
    } else if current == [] {
      assert gs != [] by {
        if gs == [] { assert false; }
      }
      assert gs[0][0] == Flatten(gs)[0] == rest[0];
      assert gs[0][..1] == [rest[0]];
      assert Flatten(gs) == [rest[0]] + rest[1..];
      SweepUnique(rest[1..], [rest[0]], threshold, gs);
      assert current + [rest[0]] == [rest[0]];
    } else if rest[0].price - Last(current).price <= threshold {
      assert |gs[0]| > |current| by {
        if |gs[0]| == |current| {
          NextGroupOpensRest(gs, current, rest, threshold);
          assert false;
        }
      }
      assert gs[0][|current|] == Flatten(gs)[|current|] == rest[0];
      assert gs[0][..|current| + 1] == current + [rest[0]];
      ChainedSnoc(current, rest[0], threshold);
      assert Flatten(gs) == (current + [rest[0]]) + rest[1..];
      SweepUnique(rest[1..], current + [rest[0]], threshold, gs);
    } else {
      assert |gs[0]| == |current| by {
        if |gs[0]| > |current| {
          FirstGroupExtends(gs, current, rest, threshold);
          assert false;
        }
      }
      assert gs[0] == current;
      var tail := gs[1..];
      assert Flatten(tail) == (gs[0] + Flatten(tail))[|gs[0]|..];
      assert tail != [] by {
        if tail == [] { assert false; }
      }
      assert Flatten(tail) == tail[0] + Flatten(tail[1..]);
      assert tail[0][0] == rest[0];
      assert tail[0][..1] == [rest[0]];
      assert WellSplit(tail, threshold) by {
        forall k | 0 < k < |tail| ensures tail[k][0].price - Last(tail[k - 1]).price > threshold {
          assert tail[k] == gs[k + 1] && tail[k - 1] == gs[k];
        }
      }
      SweepUnique(rest[1..], [rest[0]], threshold, tail);
      assert gs == [current] + tail;
    }
  }

  /** `sum(l[1] for l in group)`. */
  function SumPrices(g: seq<RawLevel>): real {
    if g == [] then 0.0 else g[0].price + SumPrices(g[1..])
  }

  /** The lowest price in a group. */
  function MinPrice(g: seq<RawLevel>): (m: real)
    requires g != []
    ensures forall k :: 0 <= k < |g| ==> m <= g[k].price
    ensures exists k :: 0 <= k < |g| && g[k].price == m
  {
    if |g| == 1 then g[0].price
    else
      var m := MinPrice(g[1..]);
      assert forall k :: 1 <= k < |g| ==> g[k] == g[1..][k - 1];
      if g[0].price <= m then g[0].price else m
  }

  /** The highest price in a group. */
  function MaxPrice(g: seq<RawLevel>): (m: real)
    requires g != []
    ensures forall k :: 0 <= k < |g| ==> g[k].price <= m
    ensures exists k :: 0 <= k < |g| && g[k].price == m
  {
    if |g| == 1 then g[0].price
    else
      var m := MaxPrice(g[1..]);
      assert forall k :: 1 <= k < |g| ==> g[k] == g[1..][k - 1];
      if m <= g[0].price then g[0].price else m
  }

  /** The sum of prices between `lo` and `hi` lies between `|g| * lo` and
      `|g| * hi`. */
  lemma {:induction false} SumBounds(g: seq<RawLevel>, lo: real, hi: real)
    requires forall k :: 0 <= k < |g| ==> lo <= g[k].price <= hi
    ensures (|g| as real) * lo <= SumPrices(g) <= (|g| as real) * hi
  {
    if g != [] {
      assert forall k :: 0 <= k < |g[1..]| ==> g[1..][k] == g[k + 1];
      SumBounds(g[1..], lo, hi);
    }
  }

  /** The mean price of a group, `sum(...) / len(group)`. */
  function Average(g: seq<RawLevel>): (mean: real)
    requires g != []
    ensures mean * (|g| as real) == SumPrices(g)
  {
    QuotientTimesDivisor(SumPrices(g), |g| as real);
    SumPrices(g) / (|g| as real)
  }

  lemma QuotientTimesDivisor(sum: real, n: real)
    requires n > 0.0
    ensures (sum / n) * n == sum
  {
  }

  /** A mean whose product with the count is a sum bounded by `n * lo` and
      `n * hi` lies between `lo` and `hi`. */
  lemma MeanBounds(mean: real, n: real, sum: real, lo: real, hi: real)
    requires n > 0.0 && mean * n == sum && n * lo <= sum <= n * hi
    ensures lo <= mean <= hi
  {
    assert n * (mean - lo) == sum - n * lo;
    assert n * (hi - mean) == n * hi - sum;
  }

  /** Bounds on every price of a group bound its mean price. */
  lemma AverageBetween(g: seq<RawLevel>, lo: real, hi: real)
    requires g != []
    requires forall k :: 0 <= k < |g| ==> lo <= g[k].price <= hi
    ensures lo <= Average(g) <= hi
  {
    SumBounds(g, lo, hi);
    MeanBounds(Average(g), |g| as real, SumPrices(g), lo, hi);
  }

  /** A group's mean price lies between its lowest and highest price. */
  lemma AverageWithinGroup(g: seq<RawLevel>)
    requires g != []
    ensures MinPrice(g) <= Average(g) <= MaxPrice(g)
  {
    AverageBetween(g, MinPrice(g), MaxPrice(g));
  }

  /** `set(l[2] for l in group)`. */
  function KindsOf(g: seq<RawLevel>): set<Kind> {
    set l | l in g :: l.kind
  }

  /** Python's `<` on strings: lexicographic order by code point. */
  predicate StrLess(a: string, b: string) {
    if a == [] then b != []
    else if b == [] then false
    else if a[0] != b[0] then a[0] < b[0]
    else StrLess(a[1..], b[1..])
  }

  /** `sorted(types)`: the names of the kinds present, ascending. */
  function SortedNames(kinds: set<Kind>): seq<string> {
    if Support in kinds && Resistance in kinds then
      if StrLess(KindName(Support), KindName(Resistance)) then [KindName(Support), KindName(Resistance)]
      else [KindName(Resistance), KindName(Support)]
    else if Support in kinds then [KindName(Support)]
    else if Resistance in kinds then [KindName(Resistance)]
    else []
  }

  /** `'-'.join(names)`. */
  function JoinDash(names: seq<string>): string {
    if names == [] then ""
    else if |names| == 1 then names[0]
    else names[0] + "-" + JoinDash(names[1..])
  }

  /** `'-'.join(sorted(types))` for the kinds present in a group. */
  function LabelOf(kinds: set<Kind>): (kindLabel: string)
    ensures kinds == {} ==> kindLabel == ""
    ensures kinds == {Support} ==> kindLabel == "Support"
    ensures kinds == {Resistance} ==> kindLabel == "Resistance"
    ensures kinds == {Support, Resistance} ==> kindLabel == "Resistance-Support"
  {
    assert StrLess(KindName(Resistance), KindName(Support));
    assert !StrLess(KindName(Support), KindName(Resistance));
    assert JoinDash(["Support"]) == "Support";
    assert JoinDash(["Resistance", "Support"]) == "Resistance" + "-" + "Support";
    JoinDash(SortedNames(kinds))
  }

  /** The labels a non-empty group can carry. */
  ghost predicate IsGroupLabel(kindLabel: string) {
    kindLabel == "Support" || kindLabel == "Resistance" || kindLabel == "Resistance-Support"
  }

  /** Some member of `g` is of kind `k`. */
  predicate HasKind(g: seq<RawLevel>, k: Kind) {
    exists i :: 0 <= i < |g| && g[i].kind == k
  }

  /** The kind set of a non-empty group is one of the three non-empty sets,
      and records exactly the kinds its members have. */
  lemma KindsOfGroup(g: seq<RawLevel>)
    requires g != []
    ensures Support in KindsOf(g) <==> HasKind(g, Support)
    ensures Resistance in KindsOf(g) <==> HasKind(g, Resistance)
    ensures KindsOf(g) == {Support} || KindsOf(g) == {Resistance} || KindsOf(g) == {Support, Resistance}
  {
    var kinds := KindsOf(g);
    assert g[0] in g;
    forall k ensures k in kinds <==> HasKind(g, k) {
      if k in kinds {
        var l :| l in g && l.kind == k;
        var i :| 0 <= i < |g| && g[i] == l;
      }
      if HasKind(g, k) {
        var i :| 0 <= i < |g| && g[i].kind == k;
        assert g[i] in g;
      }
    }
    assert g[0].kind in kinds;
    assert kinds <= {Support, Resistance} by {
      forall k | k in kinds ensures k == Support || k == Resistance { }
    }
  }

  /** The label of a non-empty group names exactly the kinds present. */
  lemma GroupLabel(g: seq<RawLevel>)
    requires g != []
    ensures IsGroupLabel(LabelOf(KindsOf(g)))
    ensures LabelOf(KindsOf(g)) == "Resistance-Support" <==> HasKind(g, Support) && HasKind(g, Resistance)
    ensures LabelOf(KindsOf(g)) == "Support" <==> !HasKind(g, Resistance)
    ensures LabelOf(KindsOf(g)) == "Resistance" <==> !HasKind(g, Support)
  {
    KindsOfGroup(g);
    assert "Support"[0] != "Resistance"[0] && "Support"[0] != "Resistance-Support"[0];
    assert |"Resistance"| != |"Resistance-Support"|;
  }

  /** The grouped level `group_levels` emits for a closed group: the first
      member's bar index, the mean price and the joined kind label. */
  function Summarize(g: seq<RawLevel>): (r: GroupedLevel)
    requires g != []
    ensures r.anchor == g[0].index
    ensures r.price == Average(g)
    ensures MinPrice(g) <= r.price <= MaxPrice(g)
    ensures IsGroupLabel(r.kindLabel)
    ensures r.kindLabel == "Resistance-Support" <==> HasKind(g, Support) && HasKind(g, Resistance)
    ensures r.kindLabel == "Support" <==> !HasKind(g, Resistance)
    ensures r.kindLabel == "Resistance" <==> !HasKind(g, Support)
  {
    AverageWithinGroup(g);
    GroupLabel(g);
    GroupedLevel(g[0].index, Average(g), LabelOf(KindsOf(g)))
  }

  /** The groups of `group_levels`: the sweep over the stably sorted levels. */
  function Groups(levels: seq<RawLevel>, threshold: real): (gs: seq<seq<RawLevel>>)
    ensures Flatten(gs) == SortByPrice(levels)
    ensures WellSplit(gs, threshold)
    ensures |gs| <= |levels|
    ensures gs == [] <==> levels == []
  {
    Sweep(SortByPrice(levels), [], threshold)
  }

  /** The summaries of non-empty groups, in group order. */
  function SummarizeEach(gs: seq<seq<RawLevel>>): (grouped: seq<GroupedLevel>)
    requires forall k :: 0 <= k < |gs| ==> gs[k] != []
    ensures |grouped| == |gs|
    ensures forall k :: 0 <= k < |grouped| ==> grouped[k] == Summarize(gs[k])
  {
    seq(|gs|, k requires 0 <= k < |gs| => Summarize(gs[k]))
  }

  /** `group_levels(levels, threshold)`. */
  function GroupLevels(levels: seq<RawLevel>, threshold: real): (grouped: seq<GroupedLevel>)
    ensures |grouped| == |Groups(levels, threshold)| <= |levels|
    ensures grouped == [] <==> levels == []
    ensures forall k :: 0 <= k < |grouped| ==> grouped[k] == Summarize(Groups(levels, threshold)[k])
    ensures forall k :: 0 <= k < |grouped| ==> IsGroupLabel(grouped[k].kindLabel)
  {
    SummarizeEach(Groups(levels, threshold))
  }

  /** Both halves of a sorted concatenation are sorted. */
  lemma SortedSplit(a: seq<RawLevel>, b: seq<RawLevel>)
    requires SortedByPrice(a + b)
    ensures SortedByPrice(a) && SortedByPrice(b)
  {
    forall i, j | 0 <= i < j < |a| ensures a[i].price <= a[j].price {
      assert a[i] == (a + b)[i] && a[j] == (a + b)[j];
    }
    forall i, j | 0 <= i < j < |b| ensures b[i].price <= b[j].price {
      assert b[i] == (a + b)[|a| + i] && b[j] == (a + b)[|a| + j];
    }
  }

  /** Cutting a sorted sequence leaves every piece sorted. */
  lemma {:induction false} FlattenSortedGroups(gs: seq<seq<RawLevel>>)
    requires SortedByPrice(Flatten(gs))
    ensures forall k :: 0 <= k < |gs| ==> SortedByPrice(gs[k])
  {
    if gs != [] {
      SortedSplit(gs[0], Flatten(gs[1..]));
      FlattenSortedGroups(gs[1..]);
      assert forall k :: 1 <= k < |gs| ==> gs[k] == gs[1..][k - 1];
    }
  }

  /** In a sorted group the lowest price is the first and the highest the last. */
  lemma SortedMinMax(g: seq<RawLevel>)
    requires g != [] && SortedByPrice(g)
    ensures MinPrice(g) == g[0].price && MaxPrice(g) == Last(g).price
  {
  }

  /** Each grouped level describes its group of the sorted levels: its anchor
      is the bar of the group's first (cheapest) member, its price lies
      between the group's first and last prices, and its label names the
      kinds present. */
  lemma GroupedLevelDescribesGroup(levels: seq<RawLevel>, threshold: real, k: int)
    requires 0 <= k < |GroupLevels(levels, threshold)|
    ensures
      var g := Groups(levels, threshold)[k];
      var r := GroupLevels(levels, threshold)[k];
      && g != []
      && r.anchor == g[0].index
      && (forall i :: 0 <= i < |g| ==> g[0].price <= g[i].price <= Last(g).price)
      && g[0].price <= r.price <= Last(g).price
      && (r.kindLabel == "Resistance-Support" <==> HasKind(g, Support) && HasKind(g, Resistance))
      && (r.kindLabel == "Support" <==> !HasKind(g, Resistance))
      && (r.kindLabel == "Resistance" <==> !HasKind(g, Support))
  {
    var gs: seq<seq<RawLevel>> := Groups(levels, threshold);
    FlattenSortedGroups(gs);
    SortedMinMax(gs[k]);
  }

  /** Strict increase between neighbours is strict increase throughout. */
  lemma {:induction false} IncreasingFromNeighbours(s: seq<GroupedLevel>, i: int, j: int)
    requires forall k :: 0 < k < |s| ==> s[k - 1].price < s[k].price
    requires 0 <= i < j < |s|
    decreases j - i
    ensures s[i].price < s[j].price
  {
    if i + 1 < j {
      IncreasingFromNeighbours(s, i, j - 1);
    }
  }

  /** With a non-negative threshold each group's mean is below the next
      one's: the mean is at most the group's last price, which lies more than
      `threshold` below the next group's first price. */
  lemma NeighbourAveragesIncrease(levels: seq<RawLevel>, threshold: real, k: int)
    requires threshold >= 0.0
    requires 0 < k < |GroupLevels(levels, threshold)|
    ensures GroupLevels(levels, threshold)[k - 1].price < GroupLevels(levels, threshold)[k].price
  {
    var gs: seq<seq<RawLevel>> := Groups(levels, threshold);
    GroupedLevelDescribesGroup(levels, threshold, k - 1);
    GroupedLevelDescribesGroup(levels, threshold, k);
    assert gs[k][0].price - Last(gs[k - 1]).price > threshold;
  }

  /** With a non-negative threshold the emitted average prices strictly
      increase. */
  lemma AveragesIncrease(levels: seq<RawLevel>, threshold: real)
    requires threshold >= 0.0
    ensures forall i, j :: 0 <= i < j < |GroupLevels(levels, threshold)| ==>
              GroupLevels(levels, threshold)[i].price < GroupLevels(levels, threshold)[j].price
  {
    var grouped := GroupLevels(levels, threshold);
    forall k | 0 < k < |grouped| ensures grouped[k - 1].price < grouped[k].price {
      NeighbourAveragesIncrease(levels, threshold, k);
    }
    forall i, j | 0 <= i < j < |grouped| ensures grouped[i].price < grouped[j].price {
      IncreasingFromNeighbours(grouped, i, j);
    }
  }

  /** The sweep's groups are the only well-split cut of the sorted levels. */
  lemma GroupsUnique(levels: seq<RawLevel>, threshold: real, gs: seq<seq<RawLevel>>)
    requires WellSplit(gs, threshold) && Flatten(gs) == SortByPrice(levels)
    ensures gs == Groups(levels, threshold)
  {
    SweepUnique(SortByPrice(levels), [], threshold, gs);
  }

  /** Every consecutive gap of `s` exceeds `threshold`. */
  predicate Spread(s: seq<RawLevel>, threshold: real) {
    forall k :: 0 < k < |s| ==> s[k].price - s[k - 1].price > threshold
  }

  /** Over a spread sequence the sweep closes a group at every level. */
  lemma {:induction false} SweepSingletons(rest: seq<RawLevel>, current: seq<RawLevel>, threshold: real)
    requires |current| <= 1 && Spread(current + rest, threshold)
    decreases |rest|
    ensures Chained(current, threshold)
    ensures |Sweep(rest, current, threshold)| == |current + rest|
  {
    if rest != [] {
      assert Spread([rest[0]] + rest[1..], threshold) by {
        assert [rest[0]] + rest[1..] == rest;
        forall k | 0 < k < |rest| ensures rest[k].price - rest[k - 1].price > threshold {
          assert rest[k] == (current + rest)[|current| + k];
          assert rest[k - 1] == (current + rest)[|current| + k - 1];
        }
      }
      SweepSingletons(rest[1..], [rest[0]], threshold);
      if current != [] {
        assert (current + rest)[1] == rest[0];
        assert (current + rest)[0] == Last(current);
      } else {
        assert current + [rest[0]] == [rest[0]];
      }
    }
  }

  /** One group per level when the sorted prices are spread wider than the
      threshold. */
  lemma OneGroupPerSpreadLevel(levels: seq<RawLevel>, threshold: real)
    requires Spread(SortByPrice(levels), threshold)
    ensures |GroupLevels(levels, threshold)| == |levels|
  {
    SweepSingletons(SortByPrice(levels), [], threshold);
  }

  /** No two levels share a price. */
  predicate DistinctPrices(s: seq<RawLevel>) {
    forall i, j :: 0 <= i < j < |s| ==> s[i].price != s[j].price
  }

  /** `AtPrice(s, p)` is empty exactly when no level of `s` costs `p`. */
  lemma {:induction false} AtPriceEmpty(s: seq<RawLevel>, p: real)
    ensures AtPrice(s, p) == [] <==> forall k :: 0 <= k < |s| ==> s[k].price != p
  {
    if s != [] {
      AtPriceEmpty(s[1..], p);
      assert forall k :: 1 <= k < |s| ==> s[k] == s[1..][k - 1];
    }
  }

  /** Distinct prices means at most one level at each price. */
  lemma {:induction false} DistinctIffAtMostOne(s: seq<RawLevel>)
    ensures DistinctPrices(s) ==> forall p :: |AtPrice(s, p)| <= 1
    ensures (forall p :: |AtPrice(s, p)| <= 1) ==> DistinctPrices(s)
  {
    if s == [] {
      forall p ensures AtPrice(s, p) == [] { }
    } else {
      var t := s[1..];
      DistinctIffAtMostOne(t);
      AtPriceEmpty(t, s[0].price);
      assert forall k :: 1 <= k < |s| ==> s[k] == t[k - 1];
      assert s == [s[0]] + t;
      forall p ensures AtPrice(s, p) == (if s[0].price == p then [s[0]] else []) + AtPrice(t, p) {
        AtPriceCons(s[0], t, p);
      }
      assert DistinctPrices(s) ==> forall p :: |AtPrice(s, p)| <= 1 by {
        if DistinctPrices(s) {
          assert DistinctPrices(t);
          assert forall k :: 0 <= k < |t| ==> t[k].price != s[0].price by {
            forall k | 0 <= k < |t| ensures t[k].price != s[0].price {
              assert t[k] == s[k + 1];
            }
          }
          assert AtPrice(t, s[0].price) == [];
          forall p ensures |AtPrice(s, p)| <= 1 {
            assert |AtPrice(t, p)| <= 1;
          }
        }
      }
      assert (forall p :: |AtPrice(s, p)| <= 1) ==> DistinctPrices(s) by {
        if forall p :: |AtPrice(s, p)| <= 1 {
          assert |AtPrice(s, s[0].price)| <= 1;
          assert AtPrice(t, s[0].price) == [];
          forall p ensures |AtPrice(t, p)| <= 1 {
            assert |AtPrice(s, p)| <= 1;
          }
          assert DistinctPrices(t);
          forall i, j | 0 <= i < j < |s| ensures s[i].price != s[j].price {
            assert s[j] == t[j - 1];
            if i > 0 {
              assert s[i] == t[i - 1];
            }
          }
        }
      }
    }
  }

  /** With threshold 0 and all prices distinct, every level is its own group. */
  lemma ZeroThresholdDistinctPrices(levels: seq<RawLevel>)
    requires DistinctPrices(levels)
    ensures |GroupLevels(levels, 0.0)| == |levels|
  {
    var sorted := SortByPrice(levels);
    DistinctIffAtMostOne(levels);
    DistinctIffAtMostOne(sorted);
    assert forall p :: |AtPrice(sorted, p)| <= 1 by {
      forall p ensures |AtPrice(sorted, p)| <= 1 {
        assert AtPrice(sorted, p) == AtPrice(levels, p);
      }
    }
    assert Spread(sorted, 0.0) by {
      forall k | 0 < k < |sorted| ensures sorted[k].price - sorted[k - 1].price > 0.0 {
        assert sorted[k - 1].price != sorted[k].price;
      }
    }
    OneGroupPerSpreadLevel(levels, 0.0);
  }

  /** A sorted sequence that can be one group is grouped as one. */
  lemma SingleGroup(levels: seq<RawLevel>, threshold: real)
    requires levels != [] && SortedByPrice(levels) && Chained(levels, threshold)
    ensures Groups(levels, threshold) == [levels]
  {
    SortByPriceIsTheStableSort(levels, levels);
    FlattenCons(levels, []);
    GroupsUnique(levels, threshold, [levels]);
  }

  /** When the levels form one group, `group_levels` emits its summary alone. */
  lemma OneGroupLevels(levels: seq<RawLevel>, threshold: real)
    requires levels != [] && Groups(levels, threshold) == [levels]
    ensures GroupLevels(levels, threshold) == [Summarize(levels)]
  {
    var grouped := GroupLevels(levels, threshold);
    assert |grouped| == 1 && grouped[0] == Summarize(levels);
  }

  /** Chained distance lets a group span more than the threshold: levels at
      10.0, 10.1 and 10.2 form one group under the default threshold 0.15. */
  lemma ChainedSpanExceedsThreshold()
    ensures
      var levels := [RawLevel(5, 10.0, Support), RawLevel(9, 10.1, Support), RawLevel(14, 10.2, Support)];
      && Groups(levels, DefaultThreshold) == [levels]
      && Last(levels).price - levels[0].price > DefaultThreshold
  {
    var levels := [RawLevel(5, 10.0, Support), RawLevel(9, 10.1, Support), RawLevel(14, 10.2, Support)];
    SingleGroup(levels, DefaultThreshold);
  }

  /** The anchor depends on the input order of equally priced levels: the
      stable sort keeps that order, and the anchor is the first member's bar.
      Grouping is therefore not invariant under permutation of its input. */
  lemma AnchorDependsOnInputOrder()
    ensures
      var a, b := RawLevel(1, 5.0, Support), RawLevel(2, 5.0, Resistance);
      && GroupLevels([a, b], DefaultThreshold) == [GroupedLevel(1, 5.0, "Resistance-Support")]
      && GroupLevels([b, a], DefaultThreshold) == [GroupedLevel(2, 5.0, "Resistance-Support")]
  {
    var a, b := RawLevel(1, 5.0, Support), RawLevel(2, 5.0, Resistance);
    PairGroup(a, b);
    PairGroup(b, a);
  }

  /** Two equally priced levels of different kinds form one group anchored
      at the first of them. */
  lemma PairGroup(x: RawLevel, y: RawLevel)
    requires x.price == y.price && x.kind != y.kind
    ensures GroupLevels([x, y], DefaultThreshold) == [GroupedLevel(x.index, x.price, "Resistance-Support")]
  {
    var g := [x, y];
    assert SortedByPrice(g) && Chained(g, DefaultThreshold);
    SingleGroup(g, DefaultThreshold);
    OneGroupLevels(g, DefaultThreshold);
    PairSummary(x, y);
  }

  lemma PairSummary(x: RawLevel, y: RawLevel)
    requires x.price == y.price && x.kind != y.kind
    ensures Summarize([x, y]) == GroupedLevel(x.index, x.price, "Resistance-Support")
  {
    var g := [x, y];
    var r := Summarize(g);
    assert HasKind(g, Support) && HasKind(g, Resistance) by {
      assert g[0].kind == x.kind && g[1].kind == y.kind;
    }
    assert MinPrice(g) == x.price == MaxPrice(g) by {
      assert g[0].price == g[1].price == x.price;
    }
  }
}
