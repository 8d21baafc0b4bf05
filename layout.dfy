/**
 * Responsive row size and the serpentine grouping of roadmap steps into rows
 * (components/Roadmap.tsx, `calculateNodesPerRow` and `groupSteps`).
 */
module Layout {
  import opened Decimal

  /** A roadmap step. The source's optional `isPlaceholder` flag reads as false when absent. */
  datatype Step = Step(id: string, title: string, isPlaceholder: bool)

  /** One rendered row: exactly `nodesPerRow` nodes, drawn right-to-left when `reversed`. */
  datatype Row = Row(nodes: seq<Step>, reversed: bool)

  /** Viewport widths (CSS pixels) at which a second and a third node fit in a row. */
  const TabletWidth: int := 640
  const DesktopWidth: int := 1024

  function Min(a: int, b: int): int {
    if a <= b then a else b
  }

  // ---------------------------------------------------------------------------
  // Row size

  /** Nodes per row for a viewport `width`: 1 on phones, 2 on tablets, 3 on larger screens. */
  function NodesPerRow(width: int): (r: nat)
    ensures 1 <= r <= 3
  {
    if width < TabletWidth then 1
    else if width < DesktopWidth then 2
    else 3
  }

  /** A wider viewport never gets fewer nodes per row. */
  lemma NodesPerRowMonotone(narrow: int, wide: int)
    requires narrow <= wide
    ensures NodesPerRow(narrow) <= NodesPerRow(wide)
  {
  }

  /** The three bands, both directions: the row size identifies the band of the width. */
  lemma NodesPerRowBands(width: int)
    ensures NodesPerRow(width) == 1 <==> width < 640
    ensures NodesPerRow(width) == 2 <==> 640 <= width < 1024
    ensures NodesPerRow(width) == 3 <==> 1024 <= width
  {
  }

  // ---------------------------------------------------------------------------
  // Placeholders

  /** The synthetic id `placeholder-{rowIndex}-{idx}`. */
  function PlaceholderId(rowIndex: nat, idx: nat): string {
    "placeholder-" + NatToString(rowIndex) + "-" + NatToString(idx)
  }

  function Placeholder(rowIndex: nat, idx: nat): Step {
    Step(PlaceholderId(rowIndex, idx), "", true)
  }

  /** `count` placeholders for row `rowIndex`, numbered from 0. */
  function Placeholders(rowIndex: nat, count: nat): seq<Step> {
    seq(count, idx requires 0 <= idx => Placeholder(rowIndex, idx))
  }

  /** Position of the first '-' in `s` (or `|s|` when there is none). */
  function DashIndex(s: string): nat {
    if s == [] || s[0] == '-' then 0 else 1 + DashIndex(s[1..])
  }

  lemma {:induction false} DashIndexAfterDigits(digits: string, rest: string)
    requires AllDigits(digits)
    ensures DashIndex(digits + "-" + rest) == |digits|
    decreases |digits|
  {
    if digits != [] {
      assert (digits + "-" + rest)[1..] == digits[1..] + "-" + rest;
      DashIndexAfterDigits(digits[1..], rest);
    }
  }

  /** Distinct (row, index) pairs give distinct placeholder ids, so React keys never clash. */
  lemma PlaceholderIdInjective(r1: nat, i1: nat, r2: nat, i2: nat)
    requires PlaceholderId(r1, i1) == PlaceholderId(r2, i2)
    ensures r1 == r2 && i1 == i2
  {
    var prefix := "placeholder-";
    var s1 := NatToString(r1) + "-" + NatToString(i1);
    var s2 := NatToString(r2) + "-" + NatToString(i2);
    assert PlaceholderId(r1, i1) == prefix + s1;
    assert PlaceholderId(r2, i2) == prefix + s2;
    assert s1 == (prefix + s1)[|prefix|..];
    assert s2 == (prefix + s2)[|prefix|..];
    SplitAtDash(NatToString(r1), NatToString(i1), NatToString(r2), NatToString(i2));
    NatToStringInjective(r1, r2);
    NatToStringInjective(i1, i2);
  }

  /** A digit string followed by '-' can be split back at the first '-'. */
  lemma SplitAtDash(a1: string, b1: string, a2: string, b2: string)
    requires AllDigits(a1) && AllDigits(a2)
    requires a1 + "-" + b1 == a2 + "-" + b2
    ensures a1 == a2 && b1 == b2
  {
    var s := a1 + "-" + b1;
    DashIndexAfterDigits(a1, b1);
    DashIndexAfterDigits(a2, b2);
    assert a1 == s[..|a1|] && a2 == s[..|a2|];
    assert b1 == s[|a1| + 1..] && b2 == s[|a2| + 1..];
  }

  // ---------------------------------------------------------------------------
  // Grouping

  /** A row built from a chunk of at most `perRow` steps, right-padded with placeholders. */
  function MakeRow(chunk: seq<Step>, perRow: nat, rowIndex: nat): Row
    requires |chunk| <= perRow
  {
    Row(chunk + Placeholders(rowIndex, perRow - |chunk|), rowIndex % 2 == 1)
  }

  /** The rows for `steps`, the first of them being row number `rowIndex`. */
  function Grouped(steps: seq<Step>, perRow: nat, rowIndex: nat): seq<Row>
    requires perRow >= 1
    decreases |steps|
  {
    if steps == [] then []
    else
      var len := Min(perRow, |steps|);
      [MakeRow(steps[..len], perRow, rowIndex)] + Grouped(steps[len..], perRow, rowIndex + 1)
  }

  /** The rows the roadmap renders for `steps`. */
  function GroupRows(steps: seq<Step>, perRow: nat): seq<Row>
    requires perRow >= 1
  {
    Grouped(steps, perRow, 0)
  }

  /** All nodes of all rows, in document order (the order of `rows.map` and `row.nodes.map`). */
  function Flatten(rows: seq<Row>): seq<Step> {
    if rows == [] then [] else rows[0].nodes + Flatten(rows[1..])
  }

  /** The steps that are not placeholders, in order. */
  function RealSteps(steps: seq<Step>): seq<Step> {
    if steps == [] then []
    else (if steps[0].isPlaceholder then [] else [steps[0]]) + RealSteps(steps[1..])
  }

  function CeilDiv(n: nat, d: nat): nat
    requires d >= 1
  {
    (n + d - 1) / d
  }

  /** One step of the grouping, seen from position `i` of the steps. */
  lemma GroupedSuffix(steps: seq<Step>, perRow: nat, rowIndex: nat, i: nat)
    requires perRow >= 1 && i < |steps|
    ensures var hi := Min(i + perRow, |steps|);
      Grouped(steps[i..], perRow, rowIndex) ==
        [MakeRow(steps[i..hi], perRow, rowIndex)] + Grouped(steps[hi..], perRow, rowIndex + 1)
  {
    var rest := steps[i..];
    var len := Min(perRow, |rest|);
    assert rest[..len] == steps[i..i + len];
    assert rest[len..] == steps[i + len..];
  }

  /**
   * One slice of the loop, padded: when the slice is short by `k` nodes,
   * `k` placeholders numbered 0..k-1 for this row are appended.
   */
  method PadGroup(slice: seq<Step>, nodesPerRow: nat, rowIndex: nat) returns (group: seq<Step>)
    requires |slice| <= nodesPerRow
    ensures |group| == nodesPerRow
    ensures group[..|slice|] == slice
    ensures forall idx :: |slice| <= idx < nodesPerRow ==> group[idx] == Placeholder(rowIndex, idx - |slice|)
    ensures group == MakeRow(slice, nodesPerRow, rowIndex).nodes
  {
    group := slice;
    var neededPlaceholders := nodesPerRow - |group|;
    if neededPlaceholders > 0 {
      group := group + Placeholders(rowIndex, neededPlaceholders);
    }
    assert Placeholders(rowIndex, 0) == [];
  }

  /** The loop of `groupSteps`: slices of `nodesPerRow` steps, the short last one padded. */
  method GroupSteps(steps: seq<Step>, nodesPerRow: nat) returns (groups: seq<Row>)
    requires nodesPerRow >= 1
    ensures groups == GroupRows(steps, nodesPerRow)
  {
    if |steps| == 0 {
      return [];
    }
    groups := [];
    var rowIndex: nat := 0;
    var i := 0;
    while i < |steps|
      invariant 0 <= i
      invariant groups + Grouped(steps[Min(i, |steps|)..], nodesPerRow, rowIndex) == GroupRows(steps, nodesPerRow)
      decreases |steps| - i
    {
      var hi := Min(i + nodesPerRow, |steps|);
      var group := PadGroup(steps[i..hi], nodesPerRow, rowIndex);
      var row := Row(group, rowIndex % 2 == 1);
      GroupedSuffix(steps, nodesPerRow, rowIndex, i);
      ghost var later := Grouped(steps[hi..], nodesPerRow, rowIndex + 1);
      assert (groups + [row]) + later == groups + ([row] + later);
      groups := groups + [row];
      rowIndex := rowIndex + 1;
      i := i + nodesPerRow;
      assert Min(i, |steps|) == hi;
    }
  }

  // ---------------------------------------------------------------------------
  // Properties of the grouping

  /**
   * Row count: the rows cover the steps with less than one row of slack, which
   * is exactly ceil(n / perRow) rows; no steps means no rows.
   */
  lemma {:induction false} GroupedCount(steps: seq<Step>, perRow: nat, rowIndex: nat)
    requires perRow >= 1
    ensures var rows := Grouped(steps, perRow, rowIndex);
      (rows == [] <==> steps == []) &&
      (rows != [] ==> (|rows| - 1) * perRow < |steps| <= |rows| * perRow)
    decreases |steps|
  {
    if steps != [] {
      var len := Min(perRow, |steps|);
      GroupedCount(steps[len..], perRow, rowIndex + 1);
      var rest := Grouped(steps[len..], perRow, rowIndex + 1);
      assert |Grouped(steps, perRow, rowIndex)| == |rest| + 1;
      MulSucc(|rest|, perRow);
    }
  }

  lemma MulSucc(a: int, d: int)
    ensures (a + 1) * d == a * d + d
  {
  }

  lemma MulSmall(k: int, d: int)
    requires d >= 1 && -d < k * d < d
    ensures k == 0
  {
  }

  /** `q * d <= x < q * d + d` pins down the quotient and remainder of `x` by `d`. */
  lemma DivModUnique(x: nat, d: nat, q: nat)
    requires d >= 1
    requires q * d <= x < q * d + d
    ensures x / d == q && x % d == x - q * d
  {
    var q', r' := x / d, x % d;
    assert x == q' * d + r' && 0 <= r' < d;
    assert (q' - q) * d == q' * d - q * d;
    MulSmall(q' - q, d);
  }

  /** Arithmetic behind the row count: the quotient rounded up and the shortfall of the last row. */
  lemma CeilArith(n: nat, d: nat, c: nat)
    requires d >= 1 && c >= 1
    requires (c - 1) * d < n <= c * d
    ensures (n + d - 1) / d == c
    ensures c * d - n == (d - n % d) % d
  {
    MulSucc(c - 1, d);
    DivModUnique(n + d - 1, d, c);
    if n == c * d {
      DivModUnique(n, d, c);
      DivModUnique(d, d, 1);
    } else {
      DivModUnique(n, d, c - 1);
      DivModUnique(d - n % d, d, 0);
    }
  }

  /** The row count is ceil(n / perRow), and the last row carries (perRow - n mod perRow) mod perRow placeholders. */
  lemma GroupRowsCount(steps: seq<Step>, perRow: nat)
    requires perRow >= 1
    ensures |GroupRows(steps, perRow)| == CeilDiv(|steps|, perRow)
    ensures |GroupRows(steps, perRow)| * perRow - |steps| == (perRow - |steps| % perRow) % perRow
  {
    GroupedCount(steps, perRow, 0);
    if steps != [] {
      CeilArith(|steps|, perRow, |GroupRows(steps, perRow)|);
    }
  }

  /**
   * Every node of every row: row `j`, slot `idx` holds step `j * perRow + idx`
   * while there is one, and otherwise the placeholder numbered from the end of
   * the steps; only the last row can hold placeholders. Row `j` is reversed iff
   * its index is odd.
   */
  lemma GroupedAt(steps: seq<Step>, perRow: nat, rowIndex: nat, j: nat, idx: nat)
    requires perRow >= 1
    requires j < |Grouped(steps, perRow, rowIndex)|
    requires idx < perRow
    ensures var row := Grouped(steps, perRow, rowIndex)[j];
      |row.nodes| == perRow &&
      row.reversed == ((rowIndex + j) % 2 == 1) &&
      row.nodes[idx] ==
        (if j * perRow + idx < |steps| then steps[j * perRow + idx]
         else Placeholder(rowIndex + j, j * perRow + idx - |steps|))
    ensures j * perRow + idx >= |steps| ==> j == |Grouped(steps, perRow, rowIndex)| - 1
  {
    var rows := Grouped(steps, perRow, rowIndex);
    var c := |rows|;
    GroupedShape(steps, perRow, rowIndex);
    GroupedCount(steps, perRow, rowIndex);
    FlattenGrouped(steps, perRow, rowIndex);
    FlattenAt(rows, perRow, j, idx);
    var at := j * perRow + idx;
    if at >= |steps| {
      LastRowArith(|steps|, perRow, c, j, idx);
    }
  }

  /** Arithmetic behind "only the last row holds placeholders". */
  lemma LastRowArith(n: nat, d: nat, c: nat, j: nat, idx: nat)
    requires d >= 1 && j < c && idx < d
    requires (c - 1) * d < n <= j * d + idx
    ensures j == c - 1
  {
    MulSucc(j, d);
  }

  /** Every row has `perRow` nodes, and row `j` is reversed iff `rowIndex + j` is odd. */
  lemma {:induction false} GroupedShape(steps: seq<Step>, perRow: nat, rowIndex: nat)
    requires perRow >= 1
    ensures var rows := Grouped(steps, perRow, rowIndex);
      forall j :: 0 <= j < |rows| ==>
        |rows[j].nodes| == perRow && rows[j].reversed == ((rowIndex + j) % 2 == 1)
    decreases |steps|
  {
    var rows := Grouped(steps, perRow, rowIndex);
    GroupedFirst(steps, perRow, rowIndex);
    if steps != [] {
      MakeRowAt(steps[..Min(perRow, |steps|)], perRow, rowIndex, 0);
    }
    if |steps| > perRow {
      GroupedRest(steps, perRow, rowIndex);
      GroupedShape(steps[perRow..], perRow, rowIndex + 1);
      var tail := Grouped(steps[perRow..], perRow, rowIndex + 1);
      assert forall j :: 1 <= j < |rows| ==> rows[j] == tail[j - 1];
    }
  }

  /** In rows of `perRow` nodes each, slot `idx` of row `j` is node `j * perRow + idx` of the concatenation. */
  lemma {:induction false} FlattenAt(rows: seq<Row>, perRow: nat, j: nat, idx: nat)
    requires forall r :: 0 <= r < |rows| ==> |rows[r].nodes| == perRow
    requires j < |rows| && idx < perRow
    ensures j * perRow + idx < |Flatten(rows)|
    ensures Flatten(rows)[j * perRow + idx] == rows[j].nodes[idx]
    decreases j
  {
    FlattenLength(rows, perRow);
    if j > 0 {
      FlattenAt(rows[1..], perRow, j - 1, idx);
      MulSucc(j - 1, perRow);
      assert Flatten(rows) == rows[0].nodes + Flatten(rows[1..]);
    }
  }

  lemma {:induction false} FlattenLength(rows: seq<Row>, perRow: nat)
    requires forall r :: 0 <= r < |rows| ==> |rows[r].nodes| == perRow
    ensures |Flatten(rows)| == |rows| * perRow
    decreases |rows|
  {
    if rows != [] {
      FlattenLength(rows[1..], perRow);
      MulSucc(|rows| - 1, perRow);
    }
  }

  lemma MakeRowAt(chunk: seq<Step>, perRow: nat, rowIndex: nat, idx: nat)
    requires |chunk| <= perRow && idx < perRow
    ensures var row := MakeRow(chunk, perRow, rowIndex);
      |row.nodes| == perRow && row.reversed == (rowIndex % 2 == 1) &&
      row.nodes[idx] == if idx < |chunk| then chunk[idx] else Placeholder(rowIndex, idx - |chunk|)
  {
  }

  lemma GroupedFirst(steps: seq<Step>, perRow: nat, rowIndex: nat)
    requires perRow >= 1
    ensures var rows := Grouped(steps, perRow, rowIndex);
      (steps == [] <==> rows == []) &&
      (steps != [] ==> rows[0] == MakeRow(steps[..Min(perRow, |steps|)], perRow, rowIndex)) &&
      (steps != [] && |steps| <= perRow ==> |rows| == 1)
  {
    if steps != [] && |steps| <= perRow {
      assert steps[|steps|..] == [];
    }
  }

  lemma GroupedRest(steps: seq<Step>, perRow: nat, rowIndex: nat)
    requires perRow >= 1 && |steps| > perRow
    ensures Grouped(steps, perRow, rowIndex) ==
      [MakeRow(steps[..perRow], perRow, rowIndex)] + Grouped(steps[perRow..], perRow, rowIndex + 1)
  {
  }

  /** Document order: the nodes of the rows are the steps in order, followed by the last row's placeholders. */
  lemma {:induction false} FlattenGrouped(steps: seq<Step>, perRow: nat, rowIndex: nat)
    requires perRow >= 1
    ensures var rows := Grouped(steps, perRow, rowIndex);
      rows != [] ==>
        |steps| <= |Flatten(rows)| &&
        Flatten(rows) == steps + Placeholders(rowIndex + |rows| - 1, |Flatten(rows)| - |steps|)
    decreases |steps|
  {
    var rows := Grouped(steps, perRow, rowIndex);
    GroupedFirst(steps, perRow, rowIndex);
    if steps != [] && |steps| <= perRow {
      assert rows == [rows[0]];
      assert Flatten(rows) == rows[0].nodes + Flatten([]);
      assert steps[..|steps|] == steps;
    } else if steps != [] {
      GroupedRest(steps, perRow, rowIndex);
      var rest := steps[perRow..];
      var tail := Grouped(rest, perRow, rowIndex + 1);
      assert rows[1..] == tail;
      assert Flatten(rows) == rows[0].nodes + Flatten(tail);
      FlattenGrouped(rest, perRow, rowIndex + 1);
      GroupedFirst(rest, perRow, rowIndex + 1);
      assert Placeholders(rowIndex, 0) == [];
      assert rows[0].nodes == steps[..perRow];
      assert steps[..perRow] + rest == steps;
    }
  }

  /** The rendered rows list the steps in order followed by exactly `|rows| * perRow - n` placeholders of the last row. */
  lemma GroupRowsFlatten(steps: seq<Step>, perRow: nat)
    requires perRow >= 1
    requires steps != []
    ensures var rows := GroupRows(steps, perRow);
      |rows| >= 1 && |steps| <= |rows| * perRow &&
      Flatten(rows) == steps + Placeholders(|rows| - 1, |rows| * perRow - |steps|)
  {
    GroupedCount(steps, perRow, 0);
    GroupedShape(steps, perRow, 0);
    FlattenLength(GroupRows(steps, perRow), perRow);
    FlattenGrouped(steps, perRow, 0);
  }

  lemma {:induction false} RealStepsConcat(a: seq<Step>, b: seq<Step>)
    ensures RealSteps(a + b) == RealSteps(a) + RealSteps(b)
    decreases |a|
  {
    if a != [] {
      assert (a + b)[0] == a[0];
      assert (a + b)[1..] == a[1..] + b;
      RealStepsConcat(a[1..], b);
      var head := if a[0].isPlaceholder then [] else [a[0]];
      assert RealSteps(a + b) == head + RealSteps(a[1..] + b);
    } else {
      assert a + b == b;
    }
  }

  lemma {:induction false} RealStepsOfPlaceholders(rowIndex: nat, count: nat)
    ensures RealSteps(Placeholders(rowIndex, count)) == []
    decreases count
  {
    if count > 0 {
      var ps := Placeholders(rowIndex, count);
      assert ps == Placeholders(rowIndex, count - 1) + [Placeholder(rowIndex, count - 1)];
      RealStepsOfPlaceholders(rowIndex, count - 1);
      RealStepsConcat(Placeholders(rowIndex, count - 1), [Placeholder(rowIndex, count - 1)]);
    }
  }

  /** With no step flagged as a placeholder by the caller, filtering placeholders keeps every step. */
  lemma {:induction false} RealStepsOfRealSteps(steps: seq<Step>)
    requires forall i :: 0 <= i < |steps| ==> !steps[i].isPlaceholder
    ensures RealSteps(steps) == steps
    decreases |steps|
  {
    if steps != [] {
      RealStepsOfRealSteps(steps[1..]);
    }
  }

  /**
   * The nodes that register a DOM reference (those that are not placeholders),
   * in document order, are the caller's real steps in their original order,
   * whatever the row size.
   */
  lemma RegisteredSteps(steps: seq<Step>, perRow: nat)
    requires perRow >= 1
    ensures RealSteps(Flatten(GroupRows(steps, perRow))) == RealSteps(steps)
  {
    var rows := GroupRows(steps, perRow);
    FlattenGrouped(steps, perRow, 0);
    GroupedCount(steps, perRow, 0);
    if rows != [] {
      var padCount := |Flatten(rows)| - |steps|;
      RealStepsConcat(steps, Placeholders(|rows| - 1, padCount));
      RealStepsOfPlaceholders(|rows| - 1, padCount);
    }
  }

  /** Removing the placeholders from the rows gives back exactly the caller's steps. */
  lemma RemovePlaceholders(steps: seq<Step>, perRow: nat)
    requires perRow >= 1
    requires forall i :: 0 <= i < |steps| ==> !steps[i].isPlaceholder
    ensures RealSteps(Flatten(GroupRows(steps, perRow))) == steps
  {
    RegisteredSteps(steps, perRow);
    RealStepsOfRealSteps(steps);
  }
}
