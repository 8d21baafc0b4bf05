/**
 * The Roadmap component's own state (components/Roadmap.tsx): the row size
 * chosen from the viewport and the connector list computed after layout.
 * React hooks become explicit calls: `HandleResize` for the resize handler,
 * `CalculatePositions` for the positioning effect, `Render` for the render
 * function. The measured rectangles are passed in by the caller.
 */
module Component {
  import opened Wrappers
  import opened Layout
  import opened Connectors
  import opened Decimal

  /** What the component renders: the empty-state message, or the grid of rows. */
  datatype View = NoSteps | Grid(rows: seq<Row>)

  class Roadmap {
    var nodesPerRow: nat
    var connectors: seq<Connector>

    /** The row size always comes from the width bands (or is the initial 3). */
    ghost predicate Valid()
      reads this
    {
      1 <= nodesPerRow <= 3
    }

    /** Initial state: 3 nodes per row, no connectors. */
    constructor ()
      ensures Valid()
      ensures nodesPerRow == 3 && connectors == []
    {
      nodesPerRow := 3;
      connectors := [];
    }

    /** The resize handler: recompute the row size from the viewport width. */
    method HandleResize(width: int)
      modifies this
      ensures Valid()
      ensures nodesPerRow == NodesPerRow(width)
      ensures connectors == old(connectors)
    {
      nodesPerRow := NodesPerRow(width);
    }

    /**
     * The positioning effect: with no container or no registered node slot
     * it returns early and keeps the previous connectors; otherwise it
     * replaces them by the connectors of the measured slots.
     */
    method CalculatePositions(container: Option<Rect>, slots: seq<Option<Rect>>)
      modifies this
      ensures nodesPerRow == old(nodesPerRow)
      ensures container.None? || slots == [] ==> connectors == old(connectors)
      ensures container.Some? && slots != [] ==> connectors == Links(container.value, slots)
    {
      if container.None? || |slots| == 0 {
        return;
      }
      var newConnectors := ComputeConnectors(container.value, slots);
      connectors := newConnectors;
    }

    /** The render function: rows for the current row size, or the empty state. */
    method Render(steps: seq<Step>) returns (view: View)
      requires Valid()
      ensures view.NoSteps? <==> steps == []
      ensures view.Grid? ==> view.rows == GroupRows(steps, nodesPerRow)
    {
      var rows := GroupSteps(steps, nodesPerRow);
      if |steps| == 0 {
        return NoSteps;
      }
      view := Grid(rows);
    }
  }

  /**
   * End to end: when no caller step is a placeholder, the registered nodes
   * are the steps in their original order, whatever the row size. The node
   * reference list is `j` nulls (references detached at this commit; `j` is
   * 0 on the first commit) followed by one measured slot per registered
   * node. Then there is one connector per adjacent pair of steps, the
   * (k-1)-th joining the nodes of steps k - 1 and k, and none touches a null.
   */
  lemma ConnectorsFollowStepOrder(steps: seq<Step>, perRow: nat, container: Rect,
                                  j: nat, measured: seq<Option<Rect>>)
    requires perRow >= 1
    requires forall i :: 0 <= i < |steps| ==> !steps[i].isPlaceholder
    requires |measured| == |RealSteps(Flatten(GroupRows(steps, perRow)))|
    requires forall i :: 0 <= i < |measured| ==> measured[i].Some?
    ensures RealSteps(Flatten(GroupRows(steps, perRow))) == steps
    ensures |Links(container, Nones(j) + measured)| == if |steps| == 0 then 0 else |steps| - 1
    ensures forall k :: 1 <= k < |steps| ==>
      Links(container, Nones(j) + measured)[k - 1] ==
        Connect(container, measured[k - 1].value, measured[k].value)
  {
    RemovePlaceholders(steps, perRow);
    LinksSkipLeadingNones(container, j, measured);
    LinksAllMeasured(container, measured);
  }

  /** Five steps A..E at three per row: [A, B, C] forward, then [D, E, placeholder-1-0] reversed. */
  lemma FiveStepsThreePerRow(a: Step, b: Step, c: Step, d: Step, e: Step)
    ensures GroupRows([a, b, c, d, e], 3) ==
      [Row([a, b, c], false), Row([d, e, Step("placeholder-1-0", "", true)], true)]
  {
    var steps := [a, b, c, d, e];
    assert steps[..3] == [a, b, c] && steps[3..] == [d, e];
    assert [d, e][..2] == [d, e] && [d, e][2..] == [];
    assert NatToString(1) == "1" && NatToString(0) == "0";
    assert Placeholders(0, 0) == [];
    assert PlaceholderId(1, 0) == "placeholder-1-0";
    assert Placeholders(1, 1) == [Step("placeholder-1-0", "", true)];
    assert MakeRow([a, b, c], 3, 0) == Row([a, b, c], false);
    assert MakeRow([d, e], 3, 1) == Row([d, e, Step("placeholder-1-0", "", true)], true);
    assert Grouped([d, e], 3, 1) == [MakeRow([d, e], 3, 1)] + Grouped([], 3, 2);
    assert Grouped(steps, 3, 0) == [MakeRow([a, b, c], 3, 0)] + Grouped([d, e], 3, 1);
  }
}
