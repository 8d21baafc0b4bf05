/**
 * Connector geometry (components/Roadmap.tsx, the loop of `calculatePositions`
 * and the path choice when the connectors are drawn). The DOM measurement is
 * an input: the container's rectangle and, per registered node slot, the
 * node's rectangle or None when the slot holds no element.
 */
module Connectors {
  import opened Wrappers

  datatype Point = Point(x: real, y: real)

  /** A bounding client rectangle: viewport position of the top-left corner and size. */
  datatype Rect = Rect(left: real, top: real, width: real, height: real)

  /** A line between two node centres, in container-relative coordinates. */
  datatype Connector = Connector(start: Point, end: Point)

  /** Vertical distance above which a connector is a row wrap rather than a same-row link. */
  const RowWrapThreshold: real := 50.0

  function Abs(x: real): real {
    if x < 0.0 then -x else x
  }

  /** The centre of `node`, relative to the top-left corner of `container`. */
  function Center(container: Rect, node: Rect): (p: Point)
    ensures p.x - (node.left - container.left) == (node.left - container.left + node.width) - p.x
    ensures p.y - (node.top - container.top) == (node.top - container.top + node.height) - p.y
  {
    Point(node.left - container.left + node.width / 2.0,
          node.top - container.top + node.height / 2.0)
  }

  /** The connector from node `prev` to node `cur`. */
  function Connect(container: Rect, prev: Rect, cur: Rect): Connector {
    Connector(Center(container, prev), Center(container, cur))
  }

  /**
   * The connectors for the node slots, in slot order: one for each index
   * `i` in 1..|slots|-1 whose slots `i - 1` and `i` both hold a node.
   */
  function Links(container: Rect, slots: seq<Option<Rect>>): seq<Connector>
    decreases |slots|
  {
    if |slots| < 2 then []
    else
      var m := |slots|;
      Links(container, slots[..m - 1]) +
        (if slots[m - 2].Some? && slots[m - 1].Some?
         then [Connect(container, slots[m - 2].value, slots[m - 1].value)]
         else [])
  }

  /** The connector loop: walks the adjacent slot pairs and keeps those that are both measured. */
  method ComputeConnectors(container: Rect, slots: seq<Option<Rect>>) returns (connectors: seq<Connector>)
    ensures connectors == Links(container, slots)
  {
    connectors := [];
    var i := 1;
    while i < |slots|
      invariant 1 <= i
      invariant i <= |slots| || |slots| == 0
      invariant connectors == Links(container, slots[..if |slots| == 0 then 0 else i])
    {
      var prev := slots[i - 1];
      var current := slots[i];
      if prev.Some? && current.Some? {
        connectors := connectors + [Connect(container, prev.value, current.value)];
      }
      assert slots[..i + 1][..i] == slots[..i];
      i := i + 1;
    }
    assert slots[..|slots|] == slots;
  }

  // ---------------------------------------------------------------------------
  // Properties of the connector list

  /** At most one connector per adjacent pair of slots. */
  lemma {:induction false} LinksBound(container: Rect, slots: seq<Option<Rect>>)
    ensures |slots| < 2 ==> Links(container, slots) == []
    ensures |slots| >= 1 ==> |Links(container, slots)| <= |slots| - 1
    decreases |slots|
  {
    if |slots| >= 2 {
      LinksBound(container, slots[..|slots| - 1]);
    }
  }

  /** When every slot is measured: exactly |slots| - 1 connectors, the k-th joining nodes k and k + 1. */
  lemma {:induction false} LinksAllMeasured(container: Rect, slots: seq<Option<Rect>>)
    requires forall i :: 0 <= i < |slots| ==> slots[i].Some?
    ensures |Links(container, slots)| == if |slots| == 0 then 0 else |slots| - 1
    ensures forall k :: 1 <= k < |slots| ==>
      Links(container, slots)[k - 1] == Connect(container, slots[k - 1].value, slots[k].value)
    decreases |slots|
  {
    var m := |slots|;
    if m >= 2 {
      var init := slots[..m - 1];
      LinksAllMeasured(container, init);
      var cs := Links(container, slots);
      assert cs == Links(container, init) + [Connect(container, slots[m - 2].value, slots[m - 1].value)];
      forall k | 1 <= k < m
        ensures cs[k - 1] == Connect(container, slots[k - 1].value, slots[k].value)
      {
        if k < m - 1 {
          assert init[k - 1] == slots[k - 1] && init[k] == slots[k];
        }
      }
    }
  }

  /** Every adjacent pair of measured slots gets its connector. */
  lemma {:induction false} LinksComplete(container: Rect, slots: seq<Option<Rect>>, i: nat)
    requires 1 <= i < |slots|
    requires slots[i - 1].Some? && slots[i].Some?
    ensures Connect(container, slots[i - 1].value, slots[i].value) in Links(container, slots)
    decreases |slots|
  {
    var m := |slots|;
    if i < m - 1 {
      var init := slots[..m - 1];
      assert init[i - 1] == slots[i - 1] && init[i] == slots[i];
      LinksComplete(container, init, i);
    }
  }

  /** Every connector joins an adjacent pair of measured slots; none links across an unmeasured one. */
  lemma {:induction false} LinksSound(container: Rect, slots: seq<Option<Rect>>, c: Connector)
    requires c in Links(container, slots)
    ensures exists i :: (1 <= i < |slots| && slots[i - 1].Some? && slots[i].Some? &&
                         c == Connect(container, slots[i - 1].value, slots[i].value))
    decreases |slots|
  {
    var m := |slots|;
    var init := slots[..m - 1];
    if c in Links(container, init) {
      LinksSound(container, init, c);
      var i :| 1 <= i < |init| && init[i - 1].Some? && init[i].Some? &&
        c == Connect(container, init[i - 1].value, init[i].value);
      assert init[i - 1] == slots[i - 1] && init[i] == slots[i];
    } else {
      assert slots[m - 2].Some? && slots[m - 1].Some?;
      assert c == Connect(container, slots[m - 2].value, slots[m - 1].value);
    }
  }

  /** `j` slots that hold no element. */
  function Nones(j: nat): seq<Option<Rect>> {
    seq(j, _ => None)
  }

  /** Slots that hold no element produce no connector on their own. */
  lemma {:induction false} LinksOfNones(container: Rect, j: nat)
    ensures Links(container, Nones(j)) == []
    decreases j
  {
    if j >= 2 {
      assert Nones(j)[..j - 1] == Nones(j - 1);
      LinksOfNones(container, j - 1);
    }
  }

  /**
   * Leading slots that hold no element change nothing: the connectors of
   * `Nones(j) + slots` are exactly those of `slots`, whatever `slots` holds.
   * This is the shape of the reference list on a re-render, where the
   * detached references of the previous commit come first, as nulls.
   */
  lemma {:induction false} LinksSkipLeadingNones(container: Rect, j: nat, slots: seq<Option<Rect>>)
    ensures Links(container, Nones(j) + slots) == Links(container, slots)
    decreases |slots|
  {
    var all := Nones(j) + slots;
    var m := |slots|;
    if m == 0 {
      assert all == Nones(j);
      LinksOfNones(container, j);
    } else if m == 1 {
      if j >= 1 {
        assert all[..|all| - 1] == Nones(j);
        assert all[|all| - 2].None?;
        LinksOfNones(container, j);
      }
    } else {
      assert all[..|all| - 1] == Nones(j) + slots[..m - 1];
      assert all[|all| - 2] == slots[m - 2] && all[|all| - 1] == slots[m - 1];
      LinksSkipLeadingNones(container, j, slots[..m - 1]);
    }
  }

  function Shift(r: Rect, dx: real, dy: real): Rect {
    Rect(r.left + dx, r.top + dy, r.width, r.height)
  }

  function ShiftSlots(slots: seq<Option<Rect>>, dx: real, dy: real): (shifted: seq<Option<Rect>>)
    ensures |shifted| == |slots|
  {
    seq(|slots|, i requires 0 <= i < |slots| =>
      match slots[i] case None => None case Some(r) => Some(Shift(r, dx, dy)))
  }

  /**
   * Connectors are container-relative: scrolling or moving the whole roadmap
   * (container and nodes by the same offset) leaves every connector unchanged.
   */
  lemma {:induction false} LinksTranslationInvariant(container: Rect, slots: seq<Option<Rect>>, dx: real, dy: real)
    ensures Links(Shift(container, dx, dy), ShiftSlots(slots, dx, dy)) == Links(container, slots)
    decreases |slots|
  {
    var m := |slots|;
    if m >= 2 {
      var shifted := ShiftSlots(slots, dx, dy);
      assert shifted[..m - 1] == ShiftSlots(slots[..m - 1], dx, dy);
      LinksTranslationInvariant(container, slots[..m - 1], dx, dy);
    }
  }

  // ---------------------------------------------------------------------------
  // Drawing: straight solid line or dashed quadratic curve

  /** `isVerticalConnection`: the endpoints are more than the threshold apart vertically (a row wrap). */
  predicate IsVerticalConnection(c: Connector) {
    Abs(c.start.y - c.end.y) > RowWrapThreshold
  }

  /** The geometry of the drawn path: a segment, or a quadratic curve through one control point. */
  datatype Path =
    | Line(from: Point, to: Point)
    | Curve(from: Point, control: Point, to: Point)

  /** `strokeDasharray`: "4 4" for dashed, "0" for solid. */
  datatype Stroke = Solid | Dashed

  /** The path drawn for a connector. */
  function PathOf(c: Connector): (p: Path)
    ensures p.from == c.start && p.to == c.end
    ensures p.Curve? <==> IsVerticalConnection(c)
    ensures p.Curve? ==>
      p.control.x - c.start.x == c.end.x - p.control.x &&
      p.control.y == c.start.y + RowWrapThreshold
  {
    if IsVerticalConnection(c) then
      Curve(c.start, Point((c.start.x + c.end.x) / 2.0, c.start.y + RowWrapThreshold), c.end)
    else
      Line(c.start, c.end)
  }

  function StrokeOf(c: Connector): (s: Stroke)
    ensures s == Dashed <==> PathOf(c).Curve?
  {
    if IsVerticalConnection(c) then Dashed else Solid
  }

  /** Two nodes of equal height side by side on one row are joined by a straight solid line. */
  lemma SameRowIsStraight(container: Rect, prev: Rect, cur: Rect)
    requires prev.top == cur.top && prev.height == cur.height
    ensures PathOf(Connect(container, prev, cur)).Line?
    ensures StrokeOf(Connect(container, prev, cur)) == Solid
  {
  }

  /** Nodes of equal height whose tops are more than the threshold apart are joined by a dashed curve. */
  lemma RowWrapIsCurved(container: Rect, prev: Rect, cur: Rect)
    requires prev.height == cur.height
    requires Abs(cur.top - prev.top) > RowWrapThreshold
    ensures PathOf(Connect(container, prev, cur)).Curve?
    ensures StrokeOf(Connect(container, prev, cur)) == Dashed
  {
  }
}
