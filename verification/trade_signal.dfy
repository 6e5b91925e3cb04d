/** The Buy/Sell/Hold rule of the dashboard's main page, applied to the
    current price and the grouped levels. */
module TradeSignal {
  import opened Levels
  import Grouping

  datatype Signal = Buy | Sell | Hold

  /** `[level[1] for level in grouped_levels if level[2] == kindLabel]`:
      the prices of the levels whose label is exactly `kindLabel`. */
  function PricesLabelled(grouped: seq<GroupedLevel>, kindLabel: string): (ps: seq<real>)
    ensures |ps| <= |grouped|
    ensures forall k :: 0 <= k < |grouped| && grouped[k].kindLabel == kindLabel ==> grouped[k].price in ps
    ensures forall x :: x in ps ==> exists k :: 0 <= k < |grouped| && grouped[k].kindLabel == kindLabel && grouped[k].price == x
  {
    if grouped == [] then []
    else
      var rest := PricesLabelled(grouped[1..], kindLabel);
      assert forall k :: 1 <= k < |grouped| ==> grouped[k] == grouped[1..][k - 1];
      (if grouped[0].kindLabel == kindLabel then [grouped[0].price] else []) + rest
  }

  /** Python's `max` of a non-empty list. */
  function Max(ps: seq<real>): (m: real)
    requires ps != []
    ensures m in ps
    ensures forall x :: x in ps ==> x <= m
  {
    if |ps| == 1 then ps[0]
    else
      var m := Max(ps[1..]);
      assert forall x :: x in ps ==> x == ps[0] || x in ps[1..];
      if ps[0] >= m then ps[0] else m
  }

  /** Python's `min` of a non-empty list. */
  function Min(ps: seq<real>): (m: real)
    requires ps != []
    ensures m in ps
    ensures forall x :: x in ps ==> m <= x
  {
    if |ps| == 1 then ps[0]
    else
      var m := Min(ps[1..]);
      assert forall x :: x in ps ==> x == ps[0] || x in ps[1..];
      if ps[0] <= m then ps[0] else m
  }

  /** Some level carries a label selected by `selected`, and `price` is
      strictly above every such level. */
  ghost predicate AboveAll(price: real, grouped: seq<GroupedLevel>, selected: string -> bool) {
    && (exists k :: 0 <= k < |grouped| && selected(grouped[k].kindLabel))
    && (forall k :: 0 <= k < |grouped| && selected(grouped[k].kindLabel) ==> price > grouped[k].price)
  }

  /** Some level carries a label selected by `selected`, and `price` is
      strictly below every such level. */
  ghost predicate BelowAll(price: real, grouped: seq<GroupedLevel>, selected: string -> bool) {
    && (exists k :: 0 <= k < |grouped| && selected(grouped[k].kindLabel))
    && (forall k :: 0 <= k < |grouped| && selected(grouped[k].kindLabel) ==> price < grouped[k].price)
  }

  /** The rule on the two price lists: Buy above the highest resistance,
      otherwise Sell below the lowest support, otherwise Hold. */
  function Decide(currentPrice: real, support: seq<real>, resistance: seq<real>): (s: Signal)
    ensures s == Buy <==> resistance != [] && forall x :: x in resistance ==> currentPrice > x
    ensures s == Sell <==> (&& !(resistance != [] && forall x :: x in resistance ==> currentPrice > x)
                            && support != [] && forall x :: x in support ==> currentPrice < x)
  {
    if resistance != [] && currentPrice > Max(resistance) then Buy
    else if support != [] && currentPrice < Min(support) then Sell
    else Hold
  }

  /** The signal as the dashboard computes it: the lists keep only levels
      labelled exactly lowercase `support` and `resistance`. */
  function Classify(currentPrice: real, grouped: seq<GroupedLevel>): (s: Signal)
    ensures s == Buy <==> AboveAll(currentPrice, grouped, l => l == "resistance")
    ensures s == Sell <==> (&& !AboveAll(currentPrice, grouped, l => l == "resistance")
                            && BelowAll(currentPrice, grouped, l => l == "support"))
  {
    Decide(currentPrice, PricesLabelled(grouped, "support"), PricesLabelled(grouped, "resistance"))
  }

  /** The comparisons are strict: a price equal to the highest resistance is
      no Buy, and one equal to the lowest support is no Sell. */
  lemma BoundaryPricesDoNotTrigger(support: seq<real>, resistance: seq<real>)
    ensures resistance != [] ==> Decide(Max(resistance), support, resistance) != Buy
    ensures support != [] ==> Decide(Min(support), support, resistance) != Sell
  {
  }

  /** Resistance at 100 and a price of 101 buys; support at 50 and a price
      of 49 with no resistance sells; a price of 75 between them holds. */
  lemma DecideFixtures()
    ensures Decide(101.0, [], [100.0]) == Buy
    ensures Decide(49.0, [50.0], []) == Sell
    ensures Decide(75.0, [50.0], [100.0]) == Hold
  {
  }

  /** Composed with the grouper, whose labels are capitalised, neither list
      ever receives a level, so the dashboard always shows Hold. */
  lemma PipelineAlwaysHolds(levels: seq<RawLevel>, threshold: real, currentPrice: real)
    ensures Classify(currentPrice, Grouping.GroupLevels(levels, threshold)) == Hold
  {
    var grouped := Grouping.GroupLevels(levels, threshold);
    forall k | 0 <= k < |grouped|
      ensures grouped[k].kindLabel != "resistance" && grouped[k].kindLabel != "support"
    {
      GroupLabelsAreCapitalised(grouped[k].kindLabel);
    }
  }

  /** No label the grouper emits is a lowercase kind name. */
  lemma GroupLabelsAreCapitalised(kindLabel: string)
    requires Grouping.IsGroupLabel(kindLabel)
    ensures kindLabel != "resistance" && kindLabel != "support"
  {
    assert kindLabel[0] == 'S' || kindLabel[0] == 'R';
    assert "resistance"[0] == 'r' && "support"[0] == 's';
  }

  /** `sub` occurs in `s` at offset `i`. */
  predicate OccursAt(s: string, sub: string, i: int) {
    0 <= i && i + |sub| <= |s| && s[i..i + |sub|] == sub
  }

  /** Python's `sub in s` on strings: `sub` occurs somewhere in `s`. */
  predicate Contains(s: string, sub: string) {
    exists i | 0 <= i <= |s| - |sub| :: OccursAt(s, sub, i)
  }

  /** The price lists formed as the chart does it (`'Support' in level[2]`):
      a level counts when its label contains the kind's name. */
  function PricesContaining(grouped: seq<GroupedLevel>, name: string): (ps: seq<real>)
    ensures |ps| <= |grouped|
    ensures forall k :: 0 <= k < |grouped| && Contains(grouped[k].kindLabel, name) ==> grouped[k].price in ps
    ensures forall x :: x in ps ==> exists k :: 0 <= k < |grouped| && Contains(grouped[k].kindLabel, name) && grouped[k].price == x
  {
    if grouped == [] then []
    else
      var rest := PricesContaining(grouped[1..], name);
      assert forall k :: 1 <= k < |grouped| ==> grouped[k] == grouped[1..][k - 1];
      (if Contains(grouped[0].kindLabel, name) then [grouped[0].price] else []) + rest
  }

  /** The signal with the partition the rule evidently intends: a combined
      label counts as both support and resistance. */
  function ClassifyByKind(currentPrice: real, grouped: seq<GroupedLevel>): (s: Signal)
    ensures s == Buy <==> AboveAll(currentPrice, grouped, l => Contains(l, "Resistance"))
    ensures s == Sell <==> (&& !AboveAll(currentPrice, grouped, l => Contains(l, "Resistance"))
                            && BelowAll(currentPrice, grouped, l => Contains(l, "Support")))
  {
    Decide(currentPrice, PricesContaining(grouped, "Support"), PricesContaining(grouped, "Resistance"))
  }

  /** Which kind names each grouper label contains. */
  lemma KindNamesInLabels()
    ensures Contains("Support", "Support") && !Contains("Support", "Resistance")
    ensures Contains("Resistance", "Resistance") && !Contains("Resistance", "Support")
    ensures Contains("Resistance-Support", "Support") && Contains("Resistance-Support", "Resistance")
  {
    assert OccursAt("Support", "Support", 0);
    assert OccursAt("Resistance", "Resistance", 0);
    assert OccursAt("Resistance-Support", "Resistance", 0);
    assert OccursAt("Resistance-Support", "Support", 11);
    forall i | 0 <= i <= 3 ensures !OccursAt("Resistance", "Support", i) {
      assert "Resistance"[i..i + 7][0] == "Resistance"[i];
      assert i == 0 || i == 1 || i == 2 || i == 3;
    }
  }

  /** On the grouper's output a level's label contains a kind's name exactly
      when its group has a member of that kind. */
  lemma LabelNamesGroupKinds(levels: seq<RawLevel>, threshold: real, k: int)
    requires 0 <= k < |Grouping.GroupLevels(levels, threshold)|
    ensures var g := Grouping.Groups(levels, threshold)[k];
            var l := Grouping.GroupLevels(levels, threshold)[k].kindLabel;
            && (Contains(l, "Support") <==> Grouping.HasKind(g, Support))
            && (Contains(l, "Resistance") <==> Grouping.HasKind(g, Resistance))
  {
    Grouping.GroupedLevelDescribesGroup(levels, threshold, k);
    KindNamesInLabels();
  }

  /** Some group holds a level of kind `kind`, and `price` is above the
      mean of every such group. */
  ghost predicate AboveKind(price: real, levels: seq<RawLevel>, threshold: real, kind: Kind) {
    var gs, grouped := Grouping.Groups(levels, threshold), Grouping.GroupLevels(levels, threshold);
    && (exists k :: 0 <= k < |grouped| && Grouping.HasKind(gs[k], kind))
    && (forall k :: 0 <= k < |grouped| && Grouping.HasKind(gs[k], kind) ==> price > grouped[k].price)
  }

  /** Some group holds a level of kind `kind`, and `price` is below the
      mean of every such group. */
  ghost predicate BelowKind(price: real, levels: seq<RawLevel>, threshold: real, kind: Kind) {
    var gs, grouped := Grouping.Groups(levels, threshold), Grouping.GroupLevels(levels, threshold);
    && (exists k :: 0 <= k < |grouped| && Grouping.HasKind(gs[k], kind))
    && (forall k :: 0 <= k < |grouped| && Grouping.HasKind(gs[k], kind) ==> price < grouped[k].price)
  }

  /** On the grouper's output, selecting labels that contain `Resistance`
      selects the groups holding a resistance level. */
  lemma AboveResistanceOnGroups(levels: seq<RawLevel>, threshold: real, price: real)
    ensures (AboveAll(price, Grouping.GroupLevels(levels, threshold), l => Contains(l, "Resistance"))
             <==> AboveKind(price, levels, threshold, Resistance))
  {
    var grouped := Grouping.GroupLevels(levels, threshold);
    forall k | 0 <= k < |grouped|
      ensures Contains(grouped[k].kindLabel, "Resistance") <==> Grouping.HasKind(Grouping.Groups(levels, threshold)[k], Resistance)
    {
      LabelNamesGroupKinds(levels, threshold, k);
    }
  }

  /** On the grouper's output, selecting labels that contain `Support`
      selects the groups holding a support level. */
  lemma BelowSupportOnGroups(levels: seq<RawLevel>, threshold: real, price: real)
    ensures (BelowAll(price, Grouping.GroupLevels(levels, threshold), l => Contains(l, "Support"))
             <==> BelowKind(price, levels, threshold, Support))
  {
    var grouped := Grouping.GroupLevels(levels, threshold);
    forall k | 0 <= k < |grouped|
      ensures Contains(grouped[k].kindLabel, "Support") <==> Grouping.HasKind(Grouping.Groups(levels, threshold)[k], Support)
    {
      LabelNamesGroupKinds(levels, threshold, k);
    }
  }

  /** The intended rule on the grouper's output: Buy exactly when some group
      holds a resistance level and the price is above the mean of every such
      group; Sell exactly when not Buy, some group holds a support level and
      the price is below the mean of every such group. */
  lemma ClassifyByKindOnGroups(levels: seq<RawLevel>, threshold: real, currentPrice: real)
    ensures var s := ClassifyByKind(currentPrice, Grouping.GroupLevels(levels, threshold));
            && (s == Buy <==> AboveKind(currentPrice, levels, threshold, Resistance))
            && (s == Sell <==> !AboveKind(currentPrice, levels, threshold, Resistance)
                               && BelowKind(currentPrice, levels, threshold, Support))
  {
    AboveResistanceOnGroups(levels, threshold, currentPrice);
    BelowSupportOnGroups(levels, threshold, currentPrice);
  }

  /** The summary of a lone resistance level at 100. */
  lemma LoneResistanceSummary()
    ensures Grouping.Summarize([RawLevel(3, 100.0, Resistance)]) == GroupedLevel(3, 100.0, "Resistance")
  {
    var g := [RawLevel(3, 100.0, Resistance)];
    assert !Grouping.HasKind(g, Support);
    assert Grouping.MinPrice(g) == 100.0 == Grouping.MaxPrice(g);
  }

  /** A lone resistance level at 100 is grouped as itself. */
  lemma LoneResistanceGroup()
    ensures Grouping.GroupLevels([RawLevel(3, 100.0, Resistance)], Grouping.DefaultThreshold)
              == [GroupedLevel(3, 100.0, "Resistance")]
  {
    var levels := [RawLevel(3, 100.0, Resistance)];
    Grouping.SingleGroup(levels, Grouping.DefaultThreshold);
    Grouping.OneGroupLevels(levels, Grouping.DefaultThreshold);
    LoneResistanceSummary();
  }

  /** On the grouped level alone, the rule as written holds. */
  lemma LoneResistanceHolds()
    ensures Classify(101.0, [GroupedLevel(3, 100.0, "Resistance")]) == Hold
  {
    var grouped := [GroupedLevel(3, 100.0, "Resistance")];
    assert PricesLabelled(grouped, "resistance") == [];
    assert PricesLabelled(grouped, "support") == [];
  }

  /** On the grouped level alone, the corrected rule buys. */
  lemma LoneResistanceBuys()
    ensures ClassifyByKind(101.0, [GroupedLevel(3, 100.0, "Resistance")]) == Buy
  {
    var grouped := [GroupedLevel(3, 100.0, "Resistance")];
    KindNamesInLabels();
    assert PricesContaining(grouped, "Resistance") == [100.0];
  }

  /** A lone resistance level at 100 and a price of 101: the dashboard holds,
      the intended rule buys. */
  lemma LowercaseFilterMissesBreakout()
    ensures var grouped := Grouping.GroupLevels([RawLevel(3, 100.0, Resistance)], Grouping.DefaultThreshold);
            && Classify(101.0, grouped) == Hold
            && ClassifyByKind(101.0, grouped) == Buy
  {
    LoneResistanceGroup();
    LoneResistanceHolds();
    LoneResistanceBuys();
  }
}
