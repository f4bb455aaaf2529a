/**
 * The legend grid (main.js lines 154-206): one swatch and label per
 * category, `legendElemsPerRow` to a row.
 */
module Legend {

  const LegendWidth: nat := 500
  const LegendRectSize: int := 15
  const LegendHSpacing: nat := 150
  const LegendVSpacing: int := 10
  const LegendTextXOffset: int := 3
  const LegendTextYOffset: int := -2

  /** `Math.floor(legendWidth / LEGEND_H_SPACING)`. */
  function ElemsPerRow(): (n: nat)
    ensures n == 3
    ensures n * LegendHSpacing <= LegendWidth < (n + 1) * LegendHSpacing
  {
    LegendWidth / LegendHSpacing
  }

  /** A legend item's offset inside the legend group. */
  datatype Point = Point(x: int, y: int)

  /**
   * The `translate` of item `i`: column `i % legendElemsPerRow` times the
   * horizontal spacing; row `floor(i / legendElemsPerRow)` times the swatch
   * size plus the vertical spacing times the same row.
   */
  function ItemPosition(i: nat): (p: Point)
    ensures 0 <= p.x && p.x + LegendHSpacing <= LegendWidth
    ensures p.y >= 0
  {
    var row := i / ElemsPerRow();
    Point((i % ElemsPerRow()) * LegendHSpacing, row * LegendRectSize + LegendVSpacing * row)
  }

  /** Item `i` sits in column `i mod 3`, 150 apart, and row `i div 3`, 25 apart. */
  lemma ItemPositionClosedForm(i: nat)
    ensures ItemPosition(i) == Point((i % 3) * 150, (i / 3) * 25)
    ensures ItemPosition(i).x in {0, 150, 300}
    ensures ItemPosition(i).y % 25 == 0 && ItemPosition(i).y >= 0
  {
  }

  /** Distinct items never share a position. */
  lemma ItemPositionInjective(i: nat, j: nat)
    requires i != j
    ensures ItemPosition(i) != ItemPosition(j)
  {
    ItemPositionClosedForm(i);
    ItemPositionClosedForm(j);
  }

  /**
   * Items fill a row left to right before the next row starts: the next item
   * is 150 further right in the same row, or back at x = 0 one row (25) lower.
   */
  lemma ItemPositionNext(i: nat)
    ensures (i + 1) % 3 != 0 ==>
              ItemPosition(i + 1) == Point(ItemPosition(i).x + 150, ItemPosition(i).y)
    ensures (i + 1) % 3 == 0 ==>
              ItemPosition(i + 1) == Point(0, ItemPosition(i).y + 25)
  {
    ItemPositionClosedForm(i);
    ItemPositionClosedForm(i + 1);
  }

  /** The label's position inside an item: right of the 15x15 swatch, baseline 2 above its bottom. */
  function LabelPosition(): (p: Point)
    ensures p.x > LegendRectSize && 0 < p.y < LegendRectSize
  {
    Point(LegendRectSize + LegendTextXOffset, LegendRectSize + LegendTextYOffset)
  }
}
