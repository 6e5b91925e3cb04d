/** Data model of the support/resistance pipeline: price bars, the raw levels
    the fractal detector emits, and the grouped levels the grouper emits.
    Prices are exact `real`s; the floating-point rounding of the data feed is
    not modelled. */
module Levels {

  /** One OHLC price bar. The bar's timestamp only orders the bars, so the
      model identifies a bar by its position in the sequence. */
  datatype Bar = Bar(open: real, high: real, low: real, close: real)

  /** The two kinds of fractal extremum. */
  datatype Kind = Support | Resistance

  /** The string the detector stores as the third component of a level. */
  function KindName(k: Kind): (name: string)
    ensures |name| > 0
    ensures name[0] == (if k == Support then 'S' else 'R')
  {
    match k
    case Support => "Support"
    case Resistance => "Resistance"
  }

  /** `(i, price, kind)`: bar `i` is a fractal extremum at `price`. */
  datatype RawLevel = RawLevel(index: int, price: real, kind: Kind)

  /** `(anchor index, average price, kind label)` of one group of raw levels. */
  datatype GroupedLevel = GroupedLevel(anchor: int, price: real, kindLabel: string)

  /** `s` is in ascending order of price. */
  predicate SortedByPrice(s: seq<RawLevel>) {
    forall i, j :: 0 <= i < j < |s| ==> s[i].price <= s[j].price
  }
}
