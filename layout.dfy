/**
 * Layout measurement of the topic chips (`handleItemLayout` in Topics.js).
 *
 * Every chip reports its rectangle once it is laid out. The first report per
 * topic label is kept; when the number of keys of the record object reaches the
 * number of topics, the records are reduced into `levelWidth`, a map from the
 * row's `y` to the width of that row.
 */
module Measurer {
  import opened Wrappers
  import opened TopicsConfig

  /** The rectangle a chip reports in its layout event (`nativeEvent.layout`). */
  datatype Layout = Layout(x: real, y: real, width: real, height: real)

  /** The right edge of a chip (`maybeMax` in the reduce). */
  function RightEdge(l: Layout): (edge: real) {
    l.x + l.width
  }

  /** Some recorded chip lies in the row at `y`. */
  ghost predicate InRow(s: seq<Layout>, y: real) {
    exists i :: 0 <= i < |s| && s[i].y == y
  }

  /**
   * One step of the reduce: a row seen for the first time starts at 0, and the
   * chip's right edge replaces the row width, plus the margin, only when it
   * exceeds the width stored so far -- a stored width that already includes
   * the margin of an earlier chip.
   */
  function Step(levelWidth: map<real, real>, current: Layout): (next: map<real, real>) {
    var started := if current.y in levelWidth then levelWidth else levelWidth[current.y := 0.0];
    if RightEdge(current) > started[current.y]
    then started[current.y := RightEdge(current) + TopicContainerMargin]
    else started
  }

  /** The row widths the reduce leaves behind after visiting `s` from left to right. */
  function Levels(s: seq<Layout>): (levelWidth: map<real, real>)
    decreases |s|
  {
    if s == [] then map[] else Step(Levels(s[..|s| - 1]), s[|s| - 1])
  }

  /** Exactly the rows that hold a recorded chip get a width. */
  lemma {:induction false} LevelsRows(s: seq<Layout>)
    ensures forall y :: y in Levels(s) <==> InRow(s, y)
    decreases |s|
  {
    if s != [] {
      var init, last := s[..|s| - 1], s[|s| - 1];
      LevelsRows(init);
      forall y | InRow(s, y) ensures y in Levels(s) {
        var i :| 0 <= i < |s| && s[i].y == y;
        if i < |s| - 1 {
          assert init[i].y == y;
        }
      }
      forall y | y in Levels(s) ensures InRow(s, y) {
        if y != last.y {
          assert InRow(init, y);
          var i :| 0 <= i < |init| && init[i].y == y;
          assert s[i].y == y;
        }
      }
    }
  }

  /**
   * What the reduce leaves for row `y`: no chip of the row reaches past it, it is
   * never negative, and it is either 0 or the right edge of one chip of the row
   * plus the margin.
   */
  ghost predicate RowWidthFacts(s: seq<Layout>, y: real, w: real) {
    && 0.0 <= w
    && (forall i :: 0 <= i < |s| && s[i].y == y ==> RightEdge(s[i]) <= w)
    && (w == 0.0 || exists i :: 0 <= i < |s| && s[i].y == y && w == RightEdge(s[i]) + TopicContainerMargin)
  }

  lemma {:induction false} LevelWidthFacts(s: seq<Layout>, y: real)
    requires y in Levels(s)
    ensures RowWidthFacts(s, y, Levels(s)[y])
    decreases |s|
  {
    var init, last := s[..|s| - 1], s[|s| - 1];
    assert forall i :: 0 <= i < |init| ==> s[i] == init[i];
    var w := Levels(s)[y];
    if y != last.y {
      LevelWidthFacts(init, y);
    } else if y in Levels(init) {
      LevelWidthFacts(init, y);
      var before := Levels(init)[y];
      if RightEdge(last) > before {
        assert w == RightEdge(last) + TopicContainerMargin;
      } else {
        assert w == before;
      }
    } else {
      LevelsRows(init);
      assert forall i :: 0 <= i < |init| ==> init[i].y != y;
    }
  }

  /**
   * When every right edge is positive, the width of a row lies between the
   * largest right edge in it and that edge plus the margin: it is at least every
   * chip's right edge, and it is some chip's right edge plus the margin.
   */
  lemma LevelWidthWithinMargin(s: seq<Layout>, y: real)
    requires y in Levels(s)
    requires forall i :: 0 <= i < |s| ==> RightEdge(s[i]) > 0.0
    ensures forall i :: 0 <= i < |s| && s[i].y == y ==> RightEdge(s[i]) <= Levels(s)[y]
    ensures exists i :: 0 <= i < |s| && s[i].y == y && Levels(s)[y] == RightEdge(s[i]) + TopicContainerMargin
  {
    LevelWidthFacts(s, y);
    LevelsRows(s);
    var i :| 0 <= i < |s| && s[i].y == y;
    assert RightEdge(s[i]) <= Levels(s)[y];
  }

  /**
   * Because the comparison is made against a stored width that already holds
   * the margin, the result is not the row's largest right edge plus the margin
   * and depends on the order of the chips: right edges 100 then 103 give 105,
   * the other order gives 108.
   */
  lemma LevelWidthDependsOnOrder()
    ensures Levels([Layout(0.0, 0.0, 100.0, 38.0), Layout(3.0, 0.0, 100.0, 38.0)])[0.0] == 105.0
    ensures Levels([Layout(3.0, 0.0, 100.0, 38.0), Layout(0.0, 0.0, 100.0, 38.0)])[0.0] == 108.0
  {
    var a, b := Layout(0.0, 0.0, 100.0, 38.0), Layout(3.0, 0.0, 100.0, 38.0);
    assert [a, b][..1] == [a];
    assert [b, a][..1] == [b];
    assert [a][..0] == [];
    assert [b][..0] == [];
  }

  /**
   * The reduce over the recorded layouts (Topics.js, the callback passed to
   * `reduce`), visiting them in the order they were recorded.
   */
  method ReduceLevelWidths(recorded: seq<Layout>) returns (levelWidth: map<real, real>)
    ensures levelWidth == Levels(recorded)
    ensures forall y :: y in levelWidth <==> InRow(recorded, y)
  {
    levelWidth := map[];
    var i := 0;
    while i < |recorded|
      invariant 0 <= i <= |recorded|
      invariant levelWidth == Levels(recorded[..i])
    {
      var current := recorded[i];
      if current.y !in levelWidth {
        levelWidth := levelWidth[current.y := 0.0];
      }
      var tempMax := levelWidth[current.y];
      var maybeMax := current.x + current.width;
      if maybeMax > tempMax {
        levelWidth := levelWidth[current.y := maybeMax + TopicContainerMargin];
      }
      assert recorded[..i + 1][..i] == recorded[..i];
      i := i + 1;
    }
    assert recorded[..i] == recorded;
    LevelsRows(recorded);
  }

  /** The widest row (`Math.max(...Object.values(levelWidth))`) exists for a non-empty map. */
  lemma {:induction false} MaxExists(widths: set<real>)
    requires widths != {}
    ensures exists m :: m in widths && forall w :: w in widths ==> w <= m
    decreases widths
  {
    var x := PickOne(widths);
    var rest := widths - {x};
    var top := x;
    if rest != {} {
      MaxExists(rest);
      var m :| m in rest && forall w :: w in rest ==> w <= m;
      if x <= m {
        top := m;
      }
    }
    forall w | w in widths ensures w <= top {
      if w != x {
        assert w in rest;
      }
    }
  }

  /** An element of a non-empty set. */
  lemma PickOne(widths: set<real>) returns (x: real)
    requires widths != {}
    ensures x in widths
  {
    NoElementMeansEmpty(widths);
    x :| x in widths;
  }

  lemma NoElementMeansEmpty(widths: set<real>)
    ensures (forall w :: w !in widths) ==> widths == {}
  {
    if forall w :: w !in widths {
      assert widths == {};
    }
  }

  lemma ValuesNonEmpty(levelWidth: map<real, real>)
    requires |levelWidth| > 0
    ensures levelWidth.Values != {}
  {
    assert |levelWidth.Keys| > 0;
    var y := PickOne(levelWidth.Keys);
    assert levelWidth[y] in levelWidth.Values;
  }

  /** The width of the widest row. */
  function MaxRowWidth(levelWidth: map<real, real>): (m: real)
    requires |levelWidth| > 0
    ensures m in levelWidth.Values
    ensures forall w :: w in levelWidth.Values ==> w <= m
  {
    ValuesNonEmpty(levelWidth);
    MaxExists(levelWidth.Values);
    var m :| m in levelWidth.Values && forall w :: w in levelWidth.Values ==> w <= m;
    m
  }

  /** The layouts of `labels`, in order. */
  function LayoutsOf(labels: seq<string>, positions: map<string, Layout>): (s: seq<Layout>)
    requires forall i :: 0 <= i < |labels| ==> labels[i] in positions
    ensures |s| == |labels|
    ensures forall i :: 0 <= i < |labels| ==> s[i] == positions[labels[i]]
  {
    seq(|labels|, i requires 0 <= i < |labels| => positions[labels[i]])
  }

  ghost predicate Distinct(labels: seq<string>) {
    forall i, j :: 0 <= i < j < |labels| ==> labels[i] != labels[j]
  }

  /**
   * The record object `topicPositionRef.current`: the layout of every topic that
   * has reported, keyed by label, and the row widths once they are computed. In
   * the component the row widths live under the key `levelWidth` of the same
   * object (the reduce's accumulator is the record object itself); here that key
   * is the separate field `levelWidth`, and `KeyCount` still counts it.
   */
  class LayoutAccumulator {
    /** The recorded labels in the order they were first reported (the object's key order). */
    var labels: seq<string>
    var positions: map<string, Layout>
    var levelWidth: Option<map<real, real>>

    ghost predicate Valid()
      reads this
    {
      && Distinct(labels)
      && (forall l :: l in positions <==> l in labels)
      && (levelWidth.None? ==> |labels| < TopicCount)
      && (levelWidth.Some? ==>
            && TopicCount <= |labels|
            && levelWidth.value == Levels(LayoutsOf(labels[..TopicCount], positions)))
    }

    /** `Object.keys(topicPositionRef.current).length`: the labels, plus `levelWidth` once it is set. */
    function KeyCount(): (count: nat)
      reads this
    {
      |labels| + if levelWidth.Some? then 1 else 0
    }

    constructor ()
      ensures Valid()
      ensures labels == [] && positions == map[] && levelWidth == None
    {
      labels := [];
      positions := map[];
      levelWidth := None;
    }

    /**
     * A chip with label `topic` reports `layout`. Only the first report per
     * label is kept; the row widths are computed once, in the call that records
     * the last of the `TopicCount` labels, and never again.
     */
    method HandleItemLayout(topic: string, layout: Layout)
      requires Valid()
      modifies this
      ensures Valid()
      ensures topic in old(positions) ==>
                labels == old(labels) && positions == old(positions) && levelWidth == old(levelWidth)
      ensures topic !in old(positions) ==>
                labels == old(labels) + [topic] && positions == old(positions)[topic := layout]
      ensures levelWidth ==
                if old(levelWidth).None? && |labels| == TopicCount
                then Some(Levels(LayoutsOf(labels, positions)))
                else old(levelWidth)
      ensures levelWidth.Some? <==> |labels| >= TopicCount
    {
      if topic !in positions {
        positions := positions[topic := layout];
        labels := labels + [topic];
        if KeyCount() == TopicCount {
          var widths := ReduceLevelWidths(LayoutsOf(labels, positions));
          levelWidth := Some(widths);
          assert labels[..TopicCount] == labels;
        } else if levelWidth.Some? {
          assert labels[..TopicCount] == old(labels)[..TopicCount];
          assert LayoutsOf(labels[..TopicCount], positions) == LayoutsOf(old(labels)[..TopicCount], old(positions));
        }
      }
    }

    /** Once the widths are known, the row of every measured topic has one. */
    lemma RecordedRowsHaveWidths(i: nat)
      requires Valid() && levelWidth.Some? && i < TopicCount
      ensures labels[i] in positions
      ensures positions[labels[i]].y in levelWidth.value
    {
      var s := LayoutsOf(labels[..TopicCount], positions);
      LevelsRows(s);
      assert s[i].y == positions[labels[i]].y;
    }
  }
}
