/** Fractal detection of support and resistance bars (`identify_levels`). */
module Fractal {
  import opened Levels

  /** Bar `i` has two bars on each side. */
  predicate Interior(bars: seq<Bar>, i: int) {
    2 <= i && i + 2 < |bars|
  }

  /** `is_support_level`: lows fall strictly over two bars into `i` and rise
      strictly over two bars out of it. */
  predicate IsSupportLevel(bars: seq<Bar>, i: int)
    requires Interior(bars, i)
    ensures IsSupportLevel(bars, i) ==>
              forall j :: i - 2 <= j <= i + 2 && j != i ==> bars[i].low < bars[j].low
  {
    && bars[i].low < bars[i - 1].low < bars[i - 2].low
    && bars[i].low < bars[i + 1].low < bars[i + 2].low
  }

  /** `is_resistance_level`: the mirror image on highs. */
  predicate IsResistanceLevel(bars: seq<Bar>, i: int)
    requires Interior(bars, i)
    ensures IsResistanceLevel(bars, i) ==>
              forall j :: i - 2 <= j <= i + 2 && j != i ==> bars[j].high < bars[i].high
  {
    && bars[i].high > bars[i - 1].high > bars[i - 2].high
    && bars[i].high > bars[i + 1].high > bars[i + 2].high
  }

  /** Indices strictly increase along `levels`. */
  predicate StrictlyIncreasingIndices(levels: seq<RawLevel>) {
    forall a, b :: 0 <= a < b < |levels| ==> levels[a].index < levels[b].index
  }

  /** Every entry of `levels` is what the detector records for its bar:
      a Support entry at the low of a support bar, or a Resistance entry at
      the high of a bar that is a resistance bar and not a support bar. */
  predicate RecordedLevels(bars: seq<Bar>, levels: seq<RawLevel>) {
    forall k :: 0 <= k < |levels| ==>
      && Interior(bars, levels[k].index)
      && (levels[k].kind == Support ==>
            IsSupportLevel(bars, levels[k].index) && levels[k].price == bars[levels[k].index].low)
      && (levels[k].kind == Resistance ==>
            && !IsSupportLevel(bars, levels[k].index)
            && IsResistanceLevel(bars, levels[k].index)
            && levels[k].price == bars[levels[k].index].high)
  }

  /** Some entry of `levels` sits at bar `i`. */
  predicate Emitted(levels: seq<RawLevel>, i: int) {
    exists k :: 0 <= k < |levels| && levels[k].index == i
  }

  /** What the loop body of `identify_levels` appends for bar `i`. */
  function LevelAt(bars: seq<Bar>, i: int): (here: seq<RawLevel>)
    requires Interior(bars, i)
    ensures |here| <= 1
    ensures RecordedLevels(bars, here)
    ensures forall k :: 0 <= k < |here| ==> here[k].index == i
    ensures here != [] <==> IsSupportLevel(bars, i) || IsResistanceLevel(bars, i)
  {
    if IsSupportLevel(bars, i) then [RawLevel(i, bars[i].low, Support)]
    else if IsResistanceLevel(bars, i) then [RawLevel(i, bars[i].high, Resistance)]
    else []
  }

  /** An index is emitted by a concatenation iff by one of its parts. */
  lemma EmittedAppend(a: seq<RawLevel>, b: seq<RawLevel>, j: int)
    ensures Emitted(a + b, j) <==> Emitted(a, j) || Emitted(b, j)
  {
    if Emitted(a + b, j) {
      var k :| 0 <= k < |a + b| && (a + b)[k].index == j;
      if k < |a| { assert a[k].index == j; } else { assert b[k - |a|].index == j; }
    }
    if Emitted(a, j) {
      var k :| 0 <= k < |a| && a[k].index == j;
      assert (a + b)[k].index == j;
    }
    if Emitted(b, j) {
      var k :| 0 <= k < |b| && b[k].index == j;
      assert (a + b)[k + |a|].index == j;
    }
  }

  /** The loop of `identify_levels` from bar `i` on: bars `i .. |bars|-3`. */
  function ScanFrom(bars: seq<Bar>, i: int): (levels: seq<RawLevel>)
    requires 2 <= i
    decreases |bars| - i
    ensures forall k :: 0 <= k < |levels| ==> i <= levels[k].index
    ensures StrictlyIncreasingIndices(levels)
    ensures RecordedLevels(bars, levels)
    ensures forall j :: i <= j && Interior(bars, j) ==>
              (Emitted(levels, j) <==> IsSupportLevel(bars, j) || IsResistanceLevel(bars, j))
  {
    if i + 2 >= |bars| then []
    else
      var here := LevelAt(bars, i);
      var rest := ScanFrom(bars, i + 1);
      ScanStepOrder(bars, i, here, rest);
      RecordedLevelsAppend(bars, here, rest);
      ScanStepEmitted(bars, i, here, rest);
      here + rest
  }

  /** One step of the loop keeps the indices at or after `i` and strictly
      increasing. */
  lemma ScanStepOrder(bars: seq<Bar>, i: int, here: seq<RawLevel>, rest: seq<RawLevel>)
    requires Interior(bars, i) && here == LevelAt(bars, i)
    requires forall k :: 0 <= k < |rest| ==> i + 1 <= rest[k].index
    requires StrictlyIncreasingIndices(rest)
    ensures forall k :: 0 <= k < |here + rest| ==> i <= (here + rest)[k].index
    ensures StrictlyIncreasingIndices(here + rest)
  {
    forall a, b | 0 <= a < b < |here + rest| ensures (here + rest)[a].index < (here + rest)[b].index {
      if a >= |here| {
        assert (here + rest)[a] == rest[a - |here|] && (here + rest)[b] == rest[b - |here|];
      } else {
        assert (here + rest)[b] == rest[b - |here|];
      }
    }
    forall k | 0 <= k < |here + rest| ensures i <= (here + rest)[k].index {
      if k >= |here| {
        assert (here + rest)[k] == rest[k - |here|];
      }
    }
  }

  /** Concatenating recorded levels gives recorded levels. */
  lemma RecordedLevelsAppend(bars: seq<Bar>, a: seq<RawLevel>, b: seq<RawLevel>)
    requires RecordedLevels(bars, a) && RecordedLevels(bars, b)
    ensures RecordedLevels(bars, a + b)
  {
    forall k | 0 <= k < |a + b| ensures (a + b)[k] == (if k < |a| then a[k] else b[k - |a|]) {
    }
  }

  /** One step of the loop reports bar `i` exactly when it is a support or
      resistance bar, and every later bar as the rest of the loop does. */
  lemma ScanStepEmitted(bars: seq<Bar>, i: int, here: seq<RawLevel>, rest: seq<RawLevel>)
    requires Interior(bars, i) && here == LevelAt(bars, i)
    requires forall k :: 0 <= k < |rest| ==> i + 1 <= rest[k].index
    requires forall j :: i + 1 <= j && Interior(bars, j) ==>
               (Emitted(rest, j) <==> IsSupportLevel(bars, j) || IsResistanceLevel(bars, j))
    ensures forall j :: i <= j && Interior(bars, j) ==>
              (Emitted(here + rest, j) <==> IsSupportLevel(bars, j) || IsResistanceLevel(bars, j))
  {
    forall j ensures Emitted(here + rest, j) <==> Emitted(here, j) || Emitted(rest, j) {
      EmittedAppend(here, rest, j);
    }
    assert !Emitted(rest, i);
    assert forall j :: Emitted(here, j) <==> j == i && here != [] by {
      if here != [] {
        assert here[0].index == i;
      }
    }
  }

  /** `identify_levels`: every fractal bar, in bar order, the support test
      first so that a bar yields at most one level. */
  function IdentifyLevels(bars: seq<Bar>): (levels: seq<RawLevel>)
    ensures |bars| < 5 ==> levels == []
    ensures forall k :: 0 <= k < |levels| ==> 2 <= levels[k].index <= |bars| - 3
    ensures StrictlyIncreasingIndices(levels)
    ensures RecordedLevels(bars, levels)
    ensures forall j :: Interior(bars, j) ==>
              (Emitted(levels, j) <==> IsSupportLevel(bars, j) || IsResistanceLevel(bars, j))
  {
    ScanFrom(bars, 2)
  }

  /** Two support bars are at least three bars apart: at distance one or two
      the strict chains of lows contradict each other. The same holds for
      resistance bars. */
  lemma SameKindSpacing(bars: seq<Bar>, i: int, j: int)
    requires Interior(bars, i) && Interior(bars, j) && i < j
    ensures IsSupportLevel(bars, i) && IsSupportLevel(bars, j) ==> j - i >= 3
    ensures IsResistanceLevel(bars, i) && IsResistanceLevel(bars, j) ==> j - i >= 3
  {
  }

  /** Consequently, in the detector's output two entries of the same kind are
      at least three indices apart. */
  lemma {:induction false} DetectedSpacing(bars: seq<Bar>, a: int, b: int)
    requires 0 <= a < b < |IdentifyLevels(bars)|
    requires IdentifyLevels(bars)[a].kind == IdentifyLevels(bars)[b].kind
    ensures IdentifyLevels(bars)[b].index - IdentifyLevels(bars)[a].index >= 3
  {
    var levels := IdentifyLevels(bars);
    SameKindSpacing(bars, levels[a].index, levels[b].index);
  }

  /** A scan over bars none of which is a fractal extremum emits nothing. */
  lemma ScanFromNoExtrema(bars: seq<Bar>, i: int)
    requires 2 <= i
    requires forall j :: i <= j && Interior(bars, j) ==> !IsSupportLevel(bars, j) && !IsResistanceLevel(bars, j)
    ensures ScanFrom(bars, i) == []
  {
    var levels := ScanFrom(bars, i);
    assert levels != [] ==> Emitted(levels, levels[0].index);
  }

  /** With lows and highs both strictly rising there is no fractal bar. */
  lemma RisingSeriesHasNoLevels(bars: seq<Bar>)
    requires forall i :: 0 < i < |bars| ==> bars[i - 1].low < bars[i].low
    requires forall i :: 0 < i < |bars| ==> bars[i - 1].high < bars[i].high
    ensures IdentifyLevels(bars) == []
  {
    forall j | Interior(bars, j)
      ensures !IsSupportLevel(bars, j) && !IsResistanceLevel(bars, j)
    {
      assert bars[j - 1].low < bars[j].low;
      assert bars[j].high < bars[j + 1].high;
    }
    ScanFromNoExtrema(bars, 2);
  }

  /** With lows and highs both strictly falling there is no fractal bar. */
  lemma FallingSeriesHasNoLevels(bars: seq<Bar>)
    requires forall i :: 0 < i < |bars| ==> bars[i].low < bars[i - 1].low
    requires forall i :: 0 < i < |bars| ==> bars[i].high < bars[i - 1].high
    ensures IdentifyLevels(bars) == []
  {
    forall j | Interior(bars, j)
      ensures !IsSupportLevel(bars, j) && !IsResistanceLevel(bars, j)
    {
      assert bars[j + 1].low < bars[j].low;
      assert bars[j].high < bars[j - 1].high;
    }
    ScanFromNoExtrema(bars, 2);
  }

  /** A V of lows 10, 9, 8, 7, 8, 9, 10 gives exactly one Support level, at
      bar 3 and price 7. */
  lemma ValleyFixture()
    ensures
      var bars := [Bar(10.0, 11.0, 10.0, 10.0), Bar(9.0, 10.0, 9.0, 9.0), Bar(8.0, 9.0, 8.0, 8.0),
                   Bar(7.0, 8.0, 7.0, 7.0), Bar(8.0, 9.0, 8.0, 8.0), Bar(9.0, 10.0, 9.0, 9.0),
                   Bar(10.0, 11.0, 10.0, 10.0)];
      IdentifyLevels(bars) == [RawLevel(3, 7.0, Support)]
  {
    var bars := [Bar(10.0, 11.0, 10.0, 10.0), Bar(9.0, 10.0, 9.0, 9.0), Bar(8.0, 9.0, 8.0, 8.0),
                 Bar(7.0, 8.0, 7.0, 7.0), Bar(8.0, 9.0, 8.0, 8.0), Bar(9.0, 10.0, 9.0, 9.0),
                 Bar(10.0, 11.0, 10.0, 10.0)];
    assert ScanFrom(bars, 5) == [];
    assert LevelAt(bars, 4) == [];
    assert ScanFrom(bars, 4) == [];
    assert LevelAt(bars, 3) == [RawLevel(3, 7.0, Support)];
    assert ScanFrom(bars, 3) == [RawLevel(3, 7.0, Support)];
    assert LevelAt(bars, 2) == [];
  }
}
