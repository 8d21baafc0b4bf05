# Roadmap layout engine

A Dafny model of the layout logic of the `Roadmap` component
(`components/Roadmap.tsx`). The component draws a project roadmap: an ordered
list of steps laid out in rows whose size depends on the viewport width. Rows
alternate direction (serpentine layout). Connector lines join consecutive
real steps.

The model has three parts:

- **Row size** (`Layout.NodesPerRow`): a viewport width maps to 1, 2 or 3
  nodes per row, with bands split at 640 and 1024.
- **Row grouping** (`Layout.GroupSteps`, a loop proved equal to the
  recursive specification `Layout.Grouped`): the steps are cut into slices
  of `nodesPerRow`. The short last slice is right-padded with placeholder
  steps whose id is `placeholder-{rowIndex}-{idx}`. The ids are built with
  `Decimal.NatToString`, the decimal notation of a template literal. Odd
  rows are reversed.
- **Connectors** (`Connectors.ComputeConnectors`, proved equal to
  `Connectors.Links`): for each adjacent pair of measured node slots, the
  model makes a connector from the centre of one node to the centre of the
  next. Both centres are relative to the container. `Connectors.PathOf`
  chooses a straight solid line, or a dashed quadratic curve when the
  vertical distance is over 50.

`Component.Roadmap` is a class that holds the component's state
(`nodesPerRow`, initially 3, and `connectors`). It has three methods:

- `HandleResize` is the resize handler.
- `CalculatePositions` is the positioning effect.
- `Render` is the render function. It shows the empty state when there are
  no steps, and otherwise the grid of rows.

The DOM measurement is an input. The caller passes the container's rectangle
(`Option<Rect>`, `None` when the container is not mounted) and one
`Option<Rect>` per registered node reference, in registration order
(`None` for a null reference). Coordinates are `real`. The viewport width is
an `int` parameter.

Modelling decisions:

- The source's optional `isPlaceholder` flag is a `bool`; an absent flag
  reads as `false`. A caller's step may itself carry the flag. So grouping is
  stated exactly, as "the rows list the input steps followed by the
  generated placeholders" (`Layout.FlattenGrouped`), and not only as
  "filtering placeholders gives the input back".
- A node registers its DOM reference only when it is not a placeholder, by
  pushing onto `nodeRefs.current`, which every render empties
  (components/Roadmap.tsx:21, 159). The ref is a new inline function on each
  render. So on the first commit the list holds the new elements only. On
  every later commit it first receives one `null` per detached reference of
  the previous commit, and then the new elements. The elements are taken to
  arrive in document order: rows in order, and nodes in order within each
  row. The `reversed` flag only changes the CSS direction. Under that
  assumption the registered nodes are the real steps in their original
  order (`Layout.RegisteredSteps`). Leading nulls add no connector
  (`Connectors.LinksSkipLeadingNones`), so both shapes of the list give one
  connector per adjacent pair of steps (`Component.ConnectorsFollowStepOrder`).
- With no registered node slot, the code returns early and keeps the
  previous connector list (components/Roadmap.tsx:80). It does not clear the
  list. The model follows the code
  (`Component.Roadmap.CalculatePositions`). With exactly one slot, the code
  sets an empty list.
- `groupSteps` advances by `nodesPerRow`. The component's state only ever
  holds 3 or a value of `calculateNodesPerRow`, so `Layout.GroupSteps`
  requires `nodesPerRow >= 1`. The source would not terminate for 0.

## Model

| member | source | states |
|---|---|---|
| Layout.NodesPerRow | components/Roadmap.tsx:24-32 | the row size is always 1, 2 or 3, so it is a positive stride for grouping |
| Layout.NodesPerRowBands | components/Roadmap.tsx:24-32 | both directions: 1 node iff width < 640, 2 iff 640 <= width < 1024, 3 iff width >= 1024 |
| Layout.NodesPerRowMonotone | components/Roadmap.tsx:24-32 | a wider viewport never gets fewer nodes per row |
| Layout.GroupSteps | components/Roadmap.tsx:48-76 | the chunk-and-pad loop, with its early return for no steps, yields exactly the rows of the grouping specification |
| Layout.PadGroup | components/Roadmap.tsx:54-67 | a slice of at most nodesPerRow steps becomes exactly nodesPerRow nodes: the slice unchanged, then the placeholders of this row numbered from 0 (`Layout.Placeholders`, each a `Layout.Placeholder` with id `Layout.PlaceholderId`, an empty title and the flag set, as at :61-65) |
| Layout.GroupedShape | components/Roadmap.tsx:59-72 | every row has exactly perRow nodes and row j is reversed iff j is odd |
| Layout.GroupedCount | components/Roadmap.tsx:49-74 | no rows iff no steps; otherwise (rows - 1) * perRow < n <= rows * perRow |
| Layout.GroupRowsCount | components/Roadmap.tsx:53-66 | the row count is ceil(n / perRow); the rows hold (perRow - n mod perRow) mod perRow nodes more than there are steps |
| Layout.GroupedAt | components/Roadmap.tsx:53-73 | every row has exactly perRow nodes; slot idx of row j is step j*perRow+idx if there is one, else placeholder number j*perRow+idx-n of row j; only the last row holds placeholders; row j is reversed iff j is odd |
| Layout.FlattenGrouped | components/Roadmap.tsx:54-66 | the nodes of all rows, in order, are the input steps in their original order followed by the last row's placeholders |
| Layout.GroupRowsFlatten | components/Roadmap.tsx:53-66 | for a non-empty step list, the rows list the steps in order followed by exactly rows * perRow - n placeholders, all of the last row |
| Layout.RegisteredSteps | components/Roadmap.tsx:149-159 | the nodes that register a reference (non-placeholders, in document order) are the input's real steps in their original order, for every row size |
| Layout.RemovePlaceholders | components/Roadmap.tsx:54-66 | when the caller flags no step as a placeholder, removing placeholders from the rows gives back exactly the input steps |
| Layout.PlaceholderIdInjective | components/Roadmap.tsx:61-62 | placeholder ids for different (row, index) pairs differ, so the React keys of placeholders are unique |
| Decimal.NatToString | components/Roadmap.tsx:62 | the decimal rendering of a row or slot index is a non-empty string of digits, one digit exactly for numbers below 10 |
| Decimal.ParseNatToString | components/Roadmap.tsx:62 | reading the decimal rendering back gives the number |
| Decimal.NatToStringInjective | components/Roadmap.tsx:62 | different numbers render differently |
| Connectors.ComputeConnectors | components/Roadmap.tsx:83-105 | the connector loop yields exactly the connectors of the specification `Links`, in slot order |
| Connectors.LinksAllMeasured | components/Roadmap.tsx:86-105 | with every slot measured: exactly max(0, m - 1) connectors, the (k-1)-th from the centre of node k-1 to the centre of node k |
| Connectors.LinksComplete | components/Roadmap.tsx:86-105 | every adjacent pair of measured slots gets its connector |
| Connectors.LinksSound | components/Roadmap.tsx:86-105 | every connector joins an adjacent pair of measured slots; no connector bridges a missing reference |
| Connectors.LinksBound | components/Roadmap.tsx:86 | fewer than two slots give no connector; m slots give at most m - 1 |
| Connectors.Center | components/Roadmap.tsx:95-102 | an endpoint is the midpoint of its node's box, with the box's corner taken relative to the container's top-left corner |
| Connectors.LinksSkipLeadingNones | components/Roadmap.tsx:86-105 | any number of null slots before the slots change no connector, whatever the remaining slots hold |
| Connectors.LinksTranslationInvariant | components/Roadmap.tsx:94-103 | moving the container and all nodes by the same offset (scrolling) changes no connector |
| Connectors.PathOf | components/Roadmap.tsx:125-133 | the path keeps the connector's endpoints; it is a curve iff `Connectors.IsVerticalConnection` holds, i.e. the vertical distance exceeds 50 (:125); the control point is horizontally midway and 50 below the start |
| Connectors.StrokeOf | components/Roadmap.tsx:137 | the stroke is dashed iff the path is a curve |
| Connectors.SameRowIsStraight | components/Roadmap.tsx:125 | two nodes of equal height on the same row are joined by a straight solid line |
| Connectors.RowWrapIsCurved | components/Roadmap.tsx:125 | nodes of equal height whose tops are more than 50 apart (a row wrap) are joined by a dashed curve |
| Component.Roadmap.constructor | components/Roadmap.tsx:17-18 | the initial state is 3 nodes per row and no connectors |
| Component.Roadmap.HandleResize | components/Roadmap.tsx:36-38 | the row size becomes the band of the new width; the connectors are untouched |
| Component.Roadmap.CalculatePositions | components/Roadmap.tsx:79-107 | with no container or no slots the previous connectors stay; otherwise they become the connectors of the measured slots; the row size is untouched |
| Component.Roadmap.Render | components/Roadmap.tsx:115-119 | the empty state iff there are no steps; otherwise the rows at the current row size |
| Component.ConnectorsFollowStepOrder | components/Roadmap.tsx:86-105 | with no caller placeholders, the registered nodes are the steps in order whatever the row size; for a reference list of j nulls (j = 0 on the first commit) followed by n measured slots, the connectors are max(0, n - 1), the (k-1)-th joining the nodes of steps k-1 and k |
| Component.FiveStepsThreePerRow | components/Roadmap.tsx:48-76 | steps A..E at 3 per row give [A, B, C] forward and [D, E, placeholder-1-0] reversed |

## Left out

- React plumbing is not modelled: `useState`, `useRef`, the two `useEffect` hooks and their dependency lists, and adding and removing the `resize` listeners (components/Roadmap.tsx:15-21, 35-46, 110-113). The methods of `Component.Roadmap` are the handlers those hooks call. The order in which React runs them is the caller's concern.
- `getBoundingClientRect` is not modelled (components/Roadmap.tsx:82, 91-92). The rectangles are inputs.
- Coordinates are exact reals, not IEEE doubles. Rounding in `width / 2` and in the subtractions, and NaN or infinite values, are not captured.
- The SVG `d` strings, CSS classes and JSX markup are not modelled (components/Roadmap.tsx:117-173). Only the straight/curve choice, the control point and the dash choice are.
- The order in which React attaches the new callback refs is assumed to be document order, and all detaching calls (with `null`) are taken to come before the attaching ones. A reference that React passes as `null` becomes a `None` slot. Development-mode double rendering is not modelled.
- The PDF export, tab and topic selection (app/page.tsx) and the static files app/layout.tsx and components/ColorDivider.tsx are not part of this model. They are foreign library calls, UI glue or markup.
