/**
 * The per-chip style of Topics.js (the body of `useAnimatedStyle` in `Topic`):
 * each row follows the shared drag value `translateX`, scaled by how far the
 * row overflows the screen compared with the widest row.
 */
module Parallax {
  import opened Wrappers
  import opened Measurer
  import opened RealFacts

  /** The animated style of a chip: the empty style, or a horizontal translation. */
  datatype Style = NoTransform | Translate(translateX: real)

  /**
   * The translation of a row `rowWidth` wide while the grid is dragged by `t`:
   * a row that fits on the screen moves with the drag, an overflowing row moves
   * by its own overflow relative to the widest row's.
   */
  function RowTranslation(rowWidth: real, maxWidth: real, screenWidth: real, t: real): (translation: real)
    requires screenWidth - maxWidth != 0.0
  {
    var levelDifference := screenWidth - rowWidth;
    var maxLevelDifference := screenWidth - maxWidth;
    if levelDifference > 0.0 then t else Scaled(levelDifference, t, maxLevelDifference)
  }

  /** `(levelDifference * t) / maxLevelDifference`, the translation of an overflowing row. */
  function Scaled(levelDifference: real, t: real, maxLevelDifference: real): (translation: real)
    requires maxLevelDifference != 0.0
  {
    (levelDifference * t) / maxLevelDifference
  }

  /** Scaling by the widest row's own overflow is the identity. */
  lemma ScaledByItself(maxLevelDifference: real, t: real)
    requires maxLevelDifference != 0.0
    ensures Scaled(maxLevelDifference, t, maxLevelDifference) == t
  {
    var r := Scaled(maxLevelDifference, t, maxLevelDifference);
    assert maxLevelDifference * r == maxLevelDifference * t;
    MulCancel(maxLevelDifference, r, t);
  }

  /** Scaling the widest row's overflow gives back the row's own overflow. */
  lemma ScaledMaxOverflow(levelDifference: real, maxLevelDifference: real)
    requires maxLevelDifference != 0.0
    ensures Scaled(levelDifference, maxLevelDifference, maxLevelDifference) == levelDifference
  {
    var r := Scaled(levelDifference, maxLevelDifference, maxLevelDifference);
    assert maxLevelDifference * r == maxLevelDifference * levelDifference;
    MulCancel(maxLevelDifference, r, levelDifference);
  }

  /** A row overflowing less than the widest one scales the drag by a factor in `[0, 1]`. */
  lemma ScaledBounded(levelDifference: real, maxLevelDifference: real, t: real)
    requires maxLevelDifference < 0.0 && maxLevelDifference <= levelDifference <= 0.0
    ensures 0.0 <= t ==> 0.0 <= Scaled(levelDifference, t, maxLevelDifference) <= t
    ensures t <= 0.0 ==> t <= Scaled(levelDifference, t, maxLevelDifference) <= 0.0
  {
    var r := Scaled(levelDifference, t, maxLevelDifference);
    assert maxLevelDifference * r == levelDifference * t;
    ScaleBounded(maxLevelDifference, levelDifference, t, r);
  }

  /** The widest row always moves one to one with the drag. */
  lemma WidestRowFollowsDrag(maxWidth: real, screenWidth: real, t: real)
    requires screenWidth - maxWidth != 0.0
    ensures RowTranslation(maxWidth, maxWidth, screenWidth, t) == t
  {
    ScaledByItself(screenWidth - maxWidth, t);
  }

  /**
   * When the widest row overflows the screen, no row moves faster than the
   * drag or against it: the translation has the sign of `t` (or is 0) and is
   * at most `|t|` in size.
   */
  lemma RowTranslationBounded(rowWidth: real, maxWidth: real, screenWidth: real, t: real)
    requires screenWidth - maxWidth < 0.0
    requires rowWidth <= maxWidth
    ensures 0.0 <= t ==> 0.0 <= RowTranslation(rowWidth, maxWidth, screenWidth, t) <= t
    ensures t <= 0.0 ==> t <= RowTranslation(rowWidth, maxWidth, screenWidth, t) <= 0.0
  {
    if screenWidth - rowWidth <= 0.0 {
      ScaledBounded(screenWidth - rowWidth, screenWidth - maxWidth, t);
    }
  }

  /**
   * Dragging the grid by the widest row's overflow shifts every overflowing
   * row by exactly its own overflow, so all rows bring their right edge to the
   * screen's right edge together.
   */
  lemma RightEdgesMeet(rowWidth: real, maxWidth: real, screenWidth: real)
    requires screenWidth - maxWidth != 0.0
    requires screenWidth - rowWidth <= 0.0
    ensures RowTranslation(rowWidth, maxWidth, screenWidth, screenWidth - maxWidth) == screenWidth - rowWidth
  {
    ScaledMaxOverflow(screenWidth - rowWidth, screenWidth - maxWidth);
  }

  /**
   * Rows of widths 800, 650 and 900 on a screen 400 wide: the 650 row moves at
   * half the drag's speed, the 900 row with the drag.
   */
  lemma ThreeRowExample(t: real)
    ensures RowTranslation(650.0, 900.0, 400.0, t) == t / 2.0
    ensures RowTranslation(900.0, 900.0, 400.0, t) == t
  {
    WidestRowFollowsDrag(900.0, 400.0, t);
  }

  /**
   * The style of a chip in the row at `rowY`: empty until the row widths are
   * known, then the row's translation.
   */
  function TopicStyle(levelWidth: Option<map<real, real>>, rowY: real, screenWidth: real, t: real): (s: Style)
    requires levelWidth.Some? ==>
               && rowY in levelWidth.value
               && screenWidth - MaxRowWidth(levelWidth.value) != 0.0
    ensures s.NoTransform? <==> levelWidth.None?
    ensures levelWidth.Some? ==>
              s == Translate(RowTranslation(levelWidth.value[rowY], MaxRowWidth(levelWidth.value), screenWidth, t))
    ensures levelWidth.Some? && screenWidth - levelWidth.value[rowY] > 0.0 ==> s == Translate(t)
    ensures levelWidth.Some? && levelWidth.value[rowY] == MaxRowWidth(levelWidth.value) ==> s == Translate(t)
    ensures levelWidth.Some? && screenWidth - MaxRowWidth(levelWidth.value) < 0.0 ==>
              && s.Translate?
              && (0.0 <= t ==> 0.0 <= s.translateX <= t)
              && (t <= 0.0 ==> t <= s.translateX <= 0.0)
  {
    match levelWidth
    case None => NoTransform
    case Some(widths) =>
      var maxWidth := MaxRowWidth(widths);
      assert widths[rowY] in widths.Values;
      var r := RowTranslation(widths[rowY], maxWidth, screenWidth, t);
      WidestRowFollowsDrag(maxWidth, screenWidth, t);
      if screenWidth - maxWidth < 0.0 then
        RowTranslationBounded(widths[rowY], maxWidth, screenWidth, t);
        Translate(r)
      else
        Translate(r)
  }
}
