# hnterminal terminal UI toolkit, modelled in Dafny

hnterminal is a Hacker News reader for the terminal. Its screens are made of
components: boxes and texts, arranged in a tree, that the toolkit under
`internal/tui` lays out and paints on a tcell screen. This project models
that toolkit and proves what it does.

- **Component tree** (`component.dfy`, module `Component`). The components
  live in a `Store` class that maps each id to a `Node` value. A node lists
  its children by id and names its parent by id. A ghost rank map orders
  parents before children, which makes absolute positions and traversals
  well founded.
  - The `Store` methods model the Go component methods that change a
    component in place: `AddChild`, `RemoveChild`, the change-detecting
    setters and the plain setters.
  - `Traverse` is the breadth-first work-list loop.
  - `AbsX` and `AbsY` are the recursion up the parent chain.
- **Grid arithmetic** (`grid.dfy`, module `Grid`). These are the loops of
  `CalculateGridGeometry` and `NormalizePercentages` over percentages,
  which are modelled as reals.
  - The weights are recorded, filled and normalised.
  - They are clamped to the limits and normalised again.
  - The sizes are truncated to whole cells.
  - The one-cell-per-step rounding correction follows.
- **The toolkit object** (`tui.dfy`, class `Tui.Tui`). It holds the draw map
  and the id counter.
  - Component creation.
  - `UpdateGeometry`, with its root, fill, grid and floating rules.
  - The grid placement of `CalculateGridGeometry`.
  - `DrawAll`, which filters the draw map, sorts it by z-index and id, and
    paints. Its contract gives the screen after each painted component,
    each one the previous with that component's box or text drawn on it.
  - `GetComponent` and `RemoveComponent`.
- **Renderers.**
  - `box.dfy` (class `Box.Box`): the per-cell fill and the border glyph
    choice.
  - `text.dfy` (class `Text.Text`): splitting at spaces, the greedy word
    wrap, `RenderLine` for the four alignments, and the clipped cell
    writes.
- **Shared parts.**
  - `base.dfy`: Go's truncating integer division, float-to-int conversion,
    division by zero, and the sort that `slices.SortFunc` performs.
  - `surface.dfy`: the tcell screen, as a map from cells to glyph and style
    that `Put` overwrites, at any coordinates.

The imperative parts of the source stay imperative in the model.
- Loops are methods with invariants. Each is proved equal to a
  specification function, and the properties the toolkit relies on are
  proved as lemmas about those functions.
- The grid sizes always add up to the parent's inner extent.
- The members of a grid tile it.
- Word wrapping loses no word and is greedy.
- A justified line fills its width.
- Removal and traversal keep the tree well formed.

Some behaviour of the code is easy to misread. The model follows the code in
each case:

- The rounding correction steps through the members that have both a
  minimum and a maximum, then entry `min(k, n-1)` for step `k`, so the
  first entries grow or shrink before the last one does
  (`Grid.CorrectedEntries`).
- A minimum is not a guarantee. The clamped percentage is normalised again
  together with the others. For three members in 90 cells where the first
  has a minimum of 50, the sizes are 41/25/24, not 50/20/20
  (`Grid.MinimumDiluted`).
- The clamp compares a percentage with a limit in cells, because the
  scaling by the target size cancels out (`Grid.ClampCompares`).
- A vertical grid records a member's height percentage even when it is
  negative. A horizontal grid records 0 for that case.
- A child of a fill parent gets width `W - padding` and height
  `H - padding`, not `W - 2*padding`.
- A floating component is aligned on the screen without being clamped to
  it.
- Justified text never widens the last gap. A two-word line that is two or
  more cells short indexes out of range and panics (`Text.JustifiedPair`).
  A right- or centre-aligned line that is wider than the width makes
  `strings.Repeat` panic.
- The first wrapped line charges its first word a separator. When the first
  word does not fit, the first line is empty.
- `RemoveChild` does not clear the child's parent pointer. For a component
  with a parent, `RemoveComponent` clears its children list before it
  traverses, so only that component itself is cleared and its descendants
  keep their parent pointer (`Tui.LeafTraversal`).
- `NewText` (internal/tui/text.go:118) passes `NewComponent` a second
  argument, but `NewComponent` takes only the spec. The model drops the
  extra argument.
- Several accessors are used but not declared in `component.go`:
  `WidthPercent`, `HeightPercent`, `HorizontalAlignment`,
  `VerticalAlignment` and `RemoveChildren`. The model keeps the first four
  as plain fields of a node. `RemoveChildren` empties the children list.
- `Text.Draw` calls `utils.Min` (internal/tui/text.go:108, 110), which
  `internal/utils/utils.go` does not declare: it has only `HandleError` and
  `Abs`. The model supplies `Base.Min`, the smaller of two integers.

## Model

| member | source | states |
|---|---|---|
| Base.TruncDiv | internal/tui/tui.go:239 | Go's integer `/`: the quotient truncates toward zero, so the remainder has the dividend's sign and is smaller than the divisor |
| Base.TruncReal | internal/tui/tui.go:175 | `int(f)` truncates toward zero: the result is within one of `f`, on the side of zero |
| Base.FloatDiv | internal/tui/tui.go:100 | a float division by zero yields 0, which stands in for the IEEE infinity or NaN |
| Base.Min | internal/tui/text.go:108 | `utils.Min` is the smaller of its two arguments and one of them |
| Base.Abs | internal/tui/tui.go:195 | `utils.Abs` is the argument or its negation, and never negative |
| Base.SortBy | internal/tui/tui.go:278-283 | the sorted copy `slices.SortFunc` leaves: ascending by the key, ties by ascending id, and a permutation of the input |
| Box.BordersCoverStyles | internal/tui/box.go:22-55 | every border style except none has an entry in the glyph table |
| Box.NoBorderIsBlank | internal/tui/box.go:66-67 | with no border every cell of the rectangle is left blank |
| Box.FrameIsDrawn | internal/tui/box.go:66-82 | with a border, a cell gets a border glyph iff it lies on the frame, and interior cells stay blank |
| Box.CornerGlyphs | internal/tui/box.go:68-75 | the four corners get the four corner glyphs; when the box is one cell wide or high, the branch tested first wins |
| Box.EdgeGlyphs | internal/tui/box.go:76-80 | frame cells that are not corners get the horizontal glyph in the top and bottom rows and the vertical glyph in the side columns |
| Box.SingleAndRoundedDifferAtCorners | internal/tui/box.go:23-38 | the single and rounded styles draw different glyphs exactly at the four corners |
| Box.Box.constructor | internal/tui/box.go:94-96 | `NewBox`'s box has padding 0 and no border |
| Box.Box.SetBorder | internal/tui/box.go:87-92 | `Border()` returns the style last set, and the padding is kept |
| Box.Box.Draw | internal/tui/box.go:62-85 | every cell of the rectangle shows its glyph in the component's style; cells outside the rectangle are neither changed nor added |
| Box.Box.DrawColumn | internal/tui/box.go:65-82 | the inner loop paints one column of the rectangle and nothing else |
| Box.Box.DrawCell | internal/tui/box.go:66-80 | one cell is written blank, then overwritten by its border glyph |
| Text.Spaces | internal/tui/text.go:53 | `strings.Repeat(" ", n)` is `n` spaces |
| Text.JoinLength | internal/tui/text.go:50 | a join is as long as its words plus one separator between each two |
| Text.Split | internal/tui/text.go:90 | `strings.Split(s, " ")` yields at least one piece, and no piece holds a space |
| Text.JoinSplit | internal/tui/text.go:90 | joining the pieces of a split with single spaces gives back the text |
| Text.SplitJoin | internal/tui/text.go:90 | splitting a join of space-free words gives back the words |
| Text.WrapWords | internal/tui/text.go:91-106 | the wrapping loop yields the greedy wrapping of the words: the lines hold the words in order, each line fits (a lone overlong word excepted), and no line could have taken the next line's first word |
| Text.WrapWord | internal/tui/text.go:93-103 | one pass of the wrapping loop keeps the greedy invariant and the running length |
| Text.WrapBreak | internal/tui/text.go:94-98 | a word that does not fit closes the current line and starts the next, which it alone fills |
| Text.WrapAppend | internal/tui/text.go:99-101 | a word that fits joins the current line, adding its length plus one |
| Text.WrapFinish | internal/tui/text.go:104-106 | appending the last line only when it is not empty completes a greedy wrapping |
| Text.WrapClose | internal/tui/text.go:104-105 | closing a non-empty last line completes a greedy wrapping |
| Text.ClosedFit | internal/tui/text.go:94-106 | every closed line within the rules fits the width |
| Text.ClosedFull | internal/tui/text.go:94-106 | no closed line could have taken the next line's first word |
| Text.Extras | internal/tui/text.go:65-74 | the justify loop yields one count of extra spaces per gap |
| Text.ExtraStep | internal/tui/text.go:67-74 | one round of the justify loop adds a space to gap `steps mod (gaps - 1)` and to no other gap |
| Text.ExtrasStep | internal/tui/text.go:68-73 | the same round, as an update of the whole sequence of gaps |
| Text.ExtrasSum | internal/tui/text.go:67-74 | the rounds hand out exactly as many spaces as the line lacks |
| Text.SpacedLength | internal/tui/text.go:75-81 | the assembled line is as long as its words, their extra spaces and one separator per gap |
| Text.SpacedNoExtras | internal/tui/text.go:75-81 | without extra spaces the assembled line is the plain join |
| Text.RenderLine | internal/tui/text.go:43-84 | `RenderLine` returns the rendered line, or the panic it raises, as given by the four alignment rules |
| Text.PlainLines | internal/tui/text.go:44-50 | an empty line renders as nothing; a left-aligned line is a join that splits back into its words; a single justified word is left unpadded |
| Text.RightAligned | internal/tui/text.go:51-53 | a right-aligned line fills the width exactly with the words at its end, and it panics iff the words are wider than the width |
| Text.Centered | internal/tui/text.go:54-58 | a centred line fills the width with the words in the middle, the left margin never wider than the right and at most one narrower; it panics iff the words are wider than the width |
| Text.JustifiedFills | internal/tui/text.go:59-81 | a justified line of three or more words that fits fills the width exactly; the last gap keeps one space, and the other gaps differ by at most one, the earlier ones never narrower |
| Text.JustifiedPair | internal/tui/text.go:64-74 | a justified pair is padded in its gap when one cell short, is left joined when not short, and panics iff two or more cells short |
| Text.JustifiedOverfull | internal/tui/text.go:64-81 | a justified line at least as wide as the width is the plain join |
| Text.JustifySpaces | internal/tui/text.go:64-74 | the spacing loop yields the gap counts, or the out-of-range index that only a single gap with two or more missing cells hits |
| Text.JustifyRound | internal/tui/text.go:68-73 | one round wraps the index before the last gap and adds a space where it lands; it is out of range only for a single gap in the second round |
| Text.CycleStep | internal/tui/text.go:68-73 | the index the loop moves to is the next round's gap once it wraps |
| Text.JoinSpaced | internal/tui/text.go:75-81 | the assembly loop writes each word, followed by its gap except after the last word |
| Text.ShowsNextRow | internal/tui/text.go:108-113 | painting the next rendered row extends what the screen shows by that row and changes nothing else |
| Text.Text.constructor | internal/tui/text.go:117-119 | `NewText`'s text is left-aligned and wraps words |
| Text.Text.SetText | internal/tui/text.go:23-25 | sets the text and keeps the alignment and wrapping |
| Text.Text.SetAlignment | internal/tui/text.go:27-29 | sets the alignment and keeps the text and wrapping |
| Text.Text.SetWordWrap | internal/tui/text.go:31-33 | sets the wrapping flag and keeps the text and alignment |
| Text.Text.Draw | internal/tui/text.go:86-115 | the lines are the greedy wrapping of the split text into `width - 2` cells; the first `min(lines, height - 2)` of them are rendered and painted one glyph per cell, from one cell right of and below the corner and cut at `width - 2`; a line among those whose rendering panics stops the drawing there, and a line below the visible rows cannot panic; no other cell changes |
| Text.DrawnDetermined | internal/tui/text.go:107-113 | for the same wrapping, the outcome and the rendered lines are fixed: success or the panic of the first visible line that cannot be rendered |
| Text.DrawnConfined | internal/tui/text.go:106-113 | a drawn text changes no cell outside its component's rectangle |
| Text.Text.PaintRow | internal/tui/text.go:110-112 | one row shows the rendered line, cut at the width, and nothing else changes |
| Component.LinksKept | internal/tui/component.go:113-186 | changing anything but parents and children keeps the store a well-formed forest |
| Component.ChildrenReplaced | internal/tui/component.go:44-52 | keeping a repetition-free selection of a children list keeps the store well formed |
| Component.ParentCleared | internal/tui/component.go:58-60 | clearing the parent of a component that no component lists keeps the store well formed |
| Component.ChildBack | internal/tui/component.go:38-39 | a listed child points back to the component that lists it |
| Component.OrphanUnlisted | internal/tui/component.go:66-68 | a root is listed by no component |
| Component.AbsXShift | internal/tui/component.go:154-159 | moving a component by `dx` columns moves exactly its descendants and itself by `dx` on the screen |
| Component.AbsYShift | internal/tui/component.go:173-178 | moving a component by `dy` rows moves exactly its descendants and itself by `dy` on the screen |
| Component.GetSiblings | internal/tui/component.go:70-81 | there are no siblings for a root; otherwise the result is a permutation of the parent's children, sorted by ascending id |
| Component.ChildrenOfMembers | internal/tui/component.go:247-253 | what the work list appends is exactly the children of the visited components |
| Component.TraversalClosed | internal/tui/component.go:243-255 | a traversal holds every child of every component it visits |
| Component.Without | internal/tui/component.go:45-48 | the list with the first occurrence of the id removed, or the list unchanged when the id is absent |
| Component.WithoutAt | internal/tui/component.go:45-47 | removing the first occurrence at index `i` is `children[:i] ++ children[i+1:]` |
| Component.WithoutDistinct | internal/tui/component.go:47 | removing a child keeps the list repetition-free |
| Component.WithoutMembers | internal/tui/component.go:47 | removing a child from a repetition-free list takes away that child and nothing else |
| Component.CutMembers | internal/tui/component.go:47 | cutting an entry out of a repetition-free list takes away that entry and nothing else |
| Component.AttachWellFormed | internal/tui/component.go:35-42 | attaching an unlisted component under one that is not its descendant keeps the store a well-formed forest |
| Component.AttachRanked | internal/tui/component.go:35-42 | after attaching, ranks still grow from parent to child |
| Component.AttachLinked | internal/tui/component.go:35-42 | after attaching, every listed child points back to its lister and no list repeats |
| Component.TraversalDone | internal/tui/component.go:247-254 | a work list whose every entry has been visited is the breadth-first traversal, parents before children |
| Component.TraverseStep | internal/tui/component.go:248-252 | visiting the next component keeps the work-list invariant |
| Component.StepWorkList | internal/tui/component.go:250-252 | the work list is the start followed by the children lists of the visited components, in order |
| Component.StepRanks | internal/tui/component.go:250-252 | everything in the work list ranks at or below the start |
| Component.StepParents | internal/tui/component.go:250-252 | every work-list entry after the start is a child of an earlier visited entry |
| Component.ChildNotListed | internal/tui/component.go:250-252 | a child being appended is not in the work list yet, so nothing is visited twice |
| Component.Store.Insert | internal/tui/component.go:274-295 | a new component is stored under its id, unattached, and the store stays well formed |
| Component.Store.AddChild | internal/tui/component.go:35-42 | the child's z-index becomes the parent's plus one and its parent becomes the parent; the child is appended with the earlier children kept |
| Component.Store.RemoveChild | internal/tui/component.go:44-52 | the first child with the id is removed with the others kept in order, or an error is reported and nothing changes |
| Component.Store.CutChild | internal/tui/component.go:46-48 | the found case: entry `i` is cut out of the children list |
| Component.Store.RemoveChildren | internal/tui/tui.go:324 | the children list is emptied, and the children keep their parent |
| Component.Store.DetachParent | internal/tui/component.go:58-60 | `SetParent(nil)` clears the parent of a component that no component lists |
| Component.Store.SetX | internal/tui/component.go:161-167 | assigns the column offset and returns true iff it differed |
| Component.Store.SetY | internal/tui/component.go:180-186 | assigns the row offset and returns true iff it differed |
| Component.Store.SetWidth | internal/tui/component.go:129-137 | assigns the width and returns true iff it differed |
| Component.Store.SetHeight | internal/tui/component.go:143-149 | assigns the height and returns true iff it differed |
| Component.Store.SetGeometry | internal/tui/component.go:232-236 | all four setters run; the result is true iff any of the four values differed |
| Component.Store.SetStyle | internal/tui/component.go:87-91 | assigns the style, nothing else changes |
| Component.Store.SetLayout | internal/tui/component.go:212-214 | assigns the layout, nothing else changes |
| Component.Store.SetZIndex | internal/tui/component.go:220-222 | assigns the z-index, nothing else changes |
| Component.Store.SetPadding | internal/tui/component.go:270-272 | assigns the padding, nothing else changes |
| Component.Store.SetMinWidth | internal/tui/component.go:113-115 | assigns the minimum width, nothing else changes |
| Component.Store.SetMaxWidth | internal/tui/component.go:117-119 | assigns the maximum width, nothing else changes |
| Component.Store.SetMinHeight | internal/tui/component.go:121-123 | assigns the minimum height, nothing else changes |
| Component.Store.SetMaxHeight | internal/tui/component.go:125-127 | assigns the maximum height, nothing else changes |
| Component.Store.Traverse | internal/tui/component.go:243-255 | the result starts at the component, has no repetitions, and appends the children lists of its own entries in order; every entry after the first is a child of an earlier one |
| Grid.Weights | internal/tui/tui.go:126-144 | one weight per member: a positive percentage as it is, an unset one as 0, except that a vertical grid records the raw value |
| Grid.RecordWeights | internal/tui/tui.go:126-144 | the weights loop records the weights, the sum of the positive percentages and how many there are |
| Grid.WeightsCount | internal/tui/tui.go:126-144 | without negative vertical percentages, the weights sum to the set percentages and the zero weights are exactly the unset members |
| Grid.SetSumNonNegative | internal/tui/tui.go:128-142 | the sum of the set percentages is never negative |
| Grid.SetCountBound | internal/tui/tui.go:127-142 | no more percentages are set than there are members |
| Grid.NoneSet | internal/tui/tui.go:128-142 | with no positive percentage, nothing counts as set |
| Grid.FillShareIs | internal/tui/tui.go:145-148 | below 100, the fill share is what the set percentages leave of 100, divided by the number of unset members |
| Grid.SharesCover | internal/tui/tui.go:147 | one fill share per unset member makes up what the set percentages leave of 100 |
| Grid.FillCovers | internal/tui/tui.go:145-153 | the fill shares of the zero weights make up what the set percentages leave of 100 |
| Grid.FillShareDefined | internal/tui/tui.go:145-153 | whenever a weight is zero some percentage is unset, so the fill share's division by zero never reaches an entry |
| Grid.Filled | internal/tui/tui.go:149-153 | the zero entries become the fill share and the others are kept |
| Grid.FillUnset | internal/tui/tui.go:149-153 | the fill loop yields the filled weights |
| Grid.FilledSum | internal/tui/tui.go:145-154 | when some percentages are unset and the set ones stay below 100, the filled weights sum to 100 and the first normalisation changes nothing |
| Grid.ScaledAt | internal/tui/tui.go:101-103 | scaling multiplies every entry by the factor |
| Grid.ScaledSum | internal/tui/tui.go:101-103 | scaling multiplies the total by the factor |
| Grid.ScaledByOne | internal/tui/tui.go:101-103 | scaling by one changes nothing |
| Grid.Normalized | internal/tui/tui.go:94-105 | normalising keeps the number of entries |
| Grid.NormalizedSum | internal/tui/tui.go:94-105 | normalising brings any non-zero total to exactly 100 |
| Grid.NormalizedZero | internal/tui/tui.go:100-103 | with a zero total, where the program divides by zero, every entry becomes 0 |
| Grid.NormalizePercentages | internal/tui/tui.go:94-105 | the method scales every entry by 100 over the total, and the result sums to 100 whenever the total is not zero |
| Grid.TotalPercent | internal/tui/tui.go:96-99 | the summing loop yields the total |
| Grid.ScaleBy | internal/tui/tui.go:101-103 | the scaling loop multiplies every entry by the factor |
| Grid.Clamped | internal/tui/tui.go:156-171 | each percentage is clamped by its own member's limits |
| Grid.ClampCompares | internal/tui/tui.go:159-168 | for a positive target size a limit applies when the percentage passes the limit in cells, and it then becomes the share that is exactly the limit's cells; otherwise the percentage is kept |
| Grid.ClampEmptyTarget | internal/tui/tui.go:159-168 | with a zero target size no limit applies |
| Grid.ClampToLimits | internal/tui/tui.go:157-171 | the clamp loop yields the clamped percentages |
| Grid.Percentages | internal/tui/tui.go:126-172 | one final percentage per member |
| Grid.ComputePercentages | internal/tui/tui.go:126-172 | the percentage steps yield the filled, normalised, clamped and renormalised percentages |
| Grid.Truncated | internal/tui/tui.go:173-176 | each size is its percentage of the target size, truncated toward zero |
| Grid.Truncate | internal/tui/tui.go:173-176 | the truncation loop yields those sizes |
| Grid.Total | internal/tui/tui.go:179-182 | the summing loop yields the total of the sizes |
| Grid.Flexible | internal/tui/tui.go:186-191 | the ascending indices of exactly the members with both a minimum and a maximum set |
| Grid.FlexibleStep | internal/tui/tui.go:187-190 | one pass of the flexible loop appends the index iff that member has both limits |
| Grid.FlexibleIndices | internal/tui/tui.go:186-191 | the flexible loop yields those indices |
| Grid.SignStep | internal/tui/tui.go:195 | `sizeDiff / utils.Abs(sizeDiff)` is the sign of the difference |
| Grid.StepInRange | internal/tui/tui.go:196-200 | every correction step adjusts an existing entry |
| Grid.Adjusted | internal/tui/tui.go:194-203 | the steps keep the number of sizes |
| Grid.AdjustedSum | internal/tui/tui.go:194-203 | `steps` steps of `d` change the total by `steps * d` |
| Grid.AdjustedEntries | internal/tui/tui.go:194-203 | each entry moves by `d` once per step that picks it |
| Grid.HitsPositive | internal/tui/tui.go:196-200 | an entry is moved iff some step picks it |
| Grid.Corrected | internal/tui/tui.go:184-204 | the correction keeps the number of sizes |
| Grid.CorrectedSum | internal/tui/tui.go:184-204 | after the correction the sizes add up to exactly the target size |
| Grid.CorrectedEntries | internal/tui/tui.go:184-204 | every entry moves toward the difference; an entry changes iff one of the first `abs(difference)` steps picks it (step `k` picks the `k`-th flexible member while there is one, otherwise entry `min(k, n-1)`), so nothing changes when the sizes already fit |
| Grid.Spread | internal/tui/tui.go:192-203 | the stepping loop moves one cell per step, in the direction of the difference, until no difference is left |
| Grid.CorrectSizes | internal/tui/tui.go:178-204 | the correction yields the corrected sizes, which add up to the target size |
| Grid.GridSizes | internal/tui/tui.go:126-204 | one size per member |
| Grid.ComputeSizes | internal/tui/tui.go:126-204 | the sizing steps yield the grid sizes, which add up to the target size |
| Grid.GridFills | internal/tui/tui.go:173-215 | the grid sizes add up to the target size, so the last member ends at the padding plus the target size |
| Grid.OffsetsTile | internal/tui/tui.go:206-215 | the first member starts at the padding, and each member starts where the previous one ends |
| Grid.EvenSplit | internal/tui/tui.go:107-217 | three members without percentages or limits share 90 cells as 30/30/30 |
| Grid.MinimumDiluted | internal/tui/tui.go:154-203 | three members in 90 cells, the first with a minimum of 50, get 41/25/24 |
| Grid.DilutedPercentages | internal/tui/tui.go:145-172 | in that example the percentages are 500/11, 300/11 and 300/11 |
| Grid.DilutedTruncated | internal/tui/tui.go:173-176 | in that example truncation gives 40/24/24 |
| Grid.DilutedFlexible | internal/tui/tui.go:186-191 | in that example no member is flexible |
| Grid.DilutedCorrected | internal/tui/tui.go:192-203 | in that example the two missing cells go to the first two members |
| Tui.HorizontalOrigin | internal/tui/tui.go:235-242 | a floating component sits flush left, centred with the odd cell on the right, or flush right on the screen |
| Tui.VerticalOrigin | internal/tui/tui.go:243-250 | a floating component sits at the top, centred with the odd row below, or at the bottom of the screen |
| Tui.NonFloating | internal/tui/tui.go:114-120 | the filter keeps exactly the components that are not floating |
| Tui.NonFloatingIncreasing | internal/tui/tui.go:114-120 | filtering keeps the ids ascending |
| Tui.SiblingsIncreasing | internal/tui/component.go:70-81 | the sorted siblings have no repetitions |
| Tui.GridMembers | internal/tui/tui.go:114-125 | the grid members are exactly the parent's non-floating children, by ascending id, and all are stored |
| Tui.PlacedMember | internal/tui/tui.go:207-214 | placing the next member extends the placement by one member, which is marked for redrawing iff its geometry changed |
| Tui.ZOrder | internal/tui/tui.go:277-283 | the draw queue is the pending components sorted by z-index and then id, each once |
| Tui.CoveredFrame | internal/tui/tui.go:285-288 | painting one more component covers one more rectangle |
| Tui.CoveredPrefix | internal/tui/tui.go:285-288 | a cell covered by part of the queue is covered by the queue |
| Tui.PaintsConfined | internal/tui/component.go:204-206 | painting a component, box or text, changes nothing outside its rectangle |
| Tui.PaintedNext | internal/tui/tui.go:285-288 | painting the next queued component extends the painting; a panic ends it there |
| Tui.PaintedAll | internal/tui/tui.go:285-288 | painting every queued component without a panic completes the painting |
| Tui.KeptToEnd | internal/tui/tui.go:285-288 | a cell that no later painted component covers keeps what it shows to the end of the frame |
| Tui.LastBoxShows | internal/tui/tui.go:285-288 | a cell whose last covering painted component is a box shows that box's border glyph, in its style, at the end of the frame |
| Tui.CoveredFromFrames | internal/tui/tui.go:285-288 | from the paints in turn: only cells inside the painted components' rectangles change, and no cell appears outside them |
| Tui.UnlinkedUnlisted | internal/tui/tui.go:322-325 | after its parent's `RemoveChild`, no component lists the removed component |
| Tui.ClearedStep | internal/tui/tui.go:326-329 | clearing the next component of the traversal extends the cleared prefix |
| Tui.ClearedAll | internal/tui/tui.go:326-329 | after the loop every component of the traversal has neither parent nor children |
| Tui.UnlistedAtTurn | internal/tui/tui.go:326-329 | when its turn comes, each component is listed by no component, so clearing its parent keeps the store well formed |
| Tui.Descent | internal/tui/tui.go:324-326 | every entry after the first of a traversal from a component without children would rank above any bound, so there is none |
| Tui.LeafTraversal | internal/tui/tui.go:324-326 | the traversal from a component without children is that component alone |
| Tui.GeometryUpdated | internal/tui/component.go:232-241 | setting the geometry changes that component's geometry only, and changes it iff one of the four values differs |
| Tui.PlacedInTurn | internal/tui/tui.go:227-264 | placing the next component of the traversal extends what `UpdateGeometry` has achieved |
| Tui.MarkProcessed | internal/tui/tui.go:260-262 | the processed set grows by exactly the grid's ids |
| Tui.Search | internal/tui/tui.go:309-314 | the search finds the id iff the traversal holds it |
| Tui.Tui.constructor | internal/tui/tui.go:63-80 | ids start after -1, the draw map is empty, and the root is the new box with id 0, fill layout, and neither parent nor children |
| Tui.Tui.NextId | internal/tui/tui.go:303-306 | the id is one more than the last one handed out, and no stored component has it |
| Tui.Tui.NewComponent | internal/tui/component.go:274-295 | a new component under the next id, with no size, no offset, limits at -1, z-index -1, fill layout, not floating, no parent, no children, and the default style |
| Tui.Tui.NewBox | internal/tui/box.go:94-96 | a new component around a new box without border or padding |
| Tui.Tui.NewText | internal/tui/text.go:117-119 | a new component around a new left-aligned, wrapping text |
| Tui.Tui.AddToDrawMap | internal/tui/tui.go:295-297 | the draw map gains the id; it is keyed by id, so adding twice is adding once |
| Tui.Tui.ClearDrawMap | internal/tui/tui.go:299-301 | the draw map becomes empty, and no component's look changes |
| Tui.Tui.SetGeometry | internal/tui/component.go:232-241 | all four values are assigned, and the component is added to the draw map iff one of them changed |
| Tui.Tui.GetComponent | internal/tui/tui.go:308-315 | the component is found iff the traversal from the root reaches it |
| Tui.Tui.RemoveComponent | internal/tui/tui.go:317-331 | a component the root does not reach leaves everything unchanged; otherwise a component with a parent is unlinked and cleared alone, and a root has its whole subtree cleared |
| Tui.Tui.Unlink | internal/tui/tui.go:322-325 | a component with a parent is taken out of its parent's list and forgets its children, after which no component lists it |
| Tui.Tui.ClearTraversal | internal/tui/tui.go:326-329 | every component of the traversal loses its parent and its children, and the store stays well formed |
| Tui.Tui.CalculateGridGeometry | internal/tui/tui.go:107-217 | the grid members, by ascending id, are laid side by side with the computed sizes and are returned; nothing else changes; exactly the members whose geometry changed are marked for redrawing |
| Tui.Tui.GridPlan | internal/tui/tui.go:107-204 | the parent, the grid members and their sizes along the grid's axis from the parent's inner extent |
| Tui.Tui.CollectMembers | internal/tui/tui.go:114-120 | the loop keeps the non-floating siblings in order |
| Tui.Tui.PlaceMembers | internal/tui/tui.go:206-216 | member `k` is placed at the padding plus the earlier sizes along the axis, at the padding across it, with the parent's extent less twice the padding; nothing else changes |
| Tui.Tui.PlaceMember | internal/tui/tui.go:207-214 | one pass of the placement loop places the next member and marks it iff it changed |
| Tui.Tui.PlaceComponent | internal/tui/tui.go:228-263 | a processed component is skipped; otherwise a floating one is aligned on the screen, a root fills the screen, a child of a fill parent fills the parent less its padding, a grid member has its grid laid out and its members processed, and a child of a float parent is left alone |
| Tui.Tui.PlaceAlone | internal/tui/tui.go:232-258 | the floating, root and fill rules each set exactly the component's geometry |
| Tui.Tui.PlaceGrid | internal/tui/tui.go:259-263 | the grid rule lays out the whole grid and adds its members to the processed set |
| Tui.Tui.UpdateGeometry | internal/tui/tui.go:222-266 | the traversal from the start (the root when absent) is placed; only offsets and sizes change, and each changed component is in the draw map; floating components end up aligned, and a root start ends up covering the screen |
| Tui.Tui.PlaceNext | internal/tui/tui.go:227-264 | one pass of the loop keeps what the placement has achieved |
| Tui.Tui.DrawComponent | internal/tui/component.go:204-206 | the component's box or text paints it at its absolute position as its look says: a box succeeds and shows its border glyph in every cell of its rectangle; a text shows the rendered lines of its greedy wrapping until one panics; nothing outside the rectangle changes, and no component's look changes |
| Tui.Tui.DrawAll | internal/tui/tui.go:268-293 | exactly the draw map's components that are not fully covered are queued, each once, by ascending z-index and then id, and painted in that order, each as its look says, from the screen before the frame to the screen after it; a panic ends the painting at the component that panicked and keeps the map, success empties it; only cells inside the painted rectangles change |
| Tui.Tui.DrawQueue | internal/tui/tui.go:269-283 | the queue holds exactly the draw map's components that are not fully covered, each once, sorted by z-index and then id |
| Tui.Tui.Uncovered | internal/tui/tui.go:269-276 | the filter loop collects exactly the draw map's components that are not fully covered, each once |
| Tui.Tui.Paint | internal/tui/tui.go:285-288 | the queued components are painted in turn, each as its look says, with the screens in between as frames: all of them on success, up to and including the one that panicked otherwise; only cells inside their rectangles change |

## Left out

- Terminal and process control are not modelled: `TUI.New`'s screen initialisation, style and mouse set-up, and log file (internal/tui/tui.go:54-62, 71-74, 82-92), `Run` and `Quit` (tui.go:358-440), and `screen.Show`. The constructor takes the screen as a parameter instead.
- `toggleFloatBox` and the global `floatBoxId` are not modelled. They rely on `NewFloatingBox`, which is not part of this model.
- The `sync.Mutex` locking in `AddChild`, `SetStyle` and `SetWidth` is left out, because the model is single-threaded.
- `FullyCovered` is not part of this model. It is a parameter of `DrawAll`.
- tcell styles are opaque tokens that are only compared.
- Surface.Screen.Put: records a cell at any coordinates, while tcell drops a write outside the screen. The core does write there: floating components are not clamped (internal/tui/tui.go:234-250), and a box or text may reach past the screen's edge. The model's screen therefore also holds cells the terminal never shows, and `Tui.LastBoxShows`, `Tui.CoveredFromFrames` and the painting contracts speak of those cells too. For a cell on the screen they state what the terminal shows.
- Percentages are reals, not IEEE-754 doubles, so rounding in the float arithmetic is not captured.
- A float division by zero, which gives an infinity or NaN in Go, is modelled as 0. For the fill share and the limits, the model shows that no entry uses such a result (`Grid.FillShareDefined`, `Grid.ClampEmptyTarget`).
- Grid.NormalizedZero: the normalising division can reach the entries, and there the model differs from Go. A vertical grid records every `HeightPercent` as it is (internal/tui/tui.go:136), so the weights -50 and 50 sum to zero. In Go, `100.0 / percentSum` (tui.go:100) is then infinite, the entries become infinite and, after the second normalisation, NaN. `int` of NaN (tui.go:175) is implementation-defined. The model makes every entry 0, and the size correction then hands out the whole target size.
- Go's `int` is 64 bits wide. Its wrap-around, for instance in the sum of the sizes (internal/tui/tui.go:179-182), is not modelled, because the model's integers are unbounded.
- Converting a float outside the range of `int` to `int` (internal/tui/tui.go:175) is not modelled: the model truncates any real.
- Strings are sequences of characters. Go's `len` and `l[x:x+1]` in `Text.Draw` count bytes, so text with multi-byte UTF-8 characters is not modelled.
- A Go panic (`strings.Repeat` with a negative count, an index out of range) is a `Panic` result. The unwinding of the goroutine is not modelled.
- The plain accessors and `SetSize`/`Size`, `HasChildren`, `Root` and `Screen` (internal/tui/component.go:54-264) are field reads or are not used by the core. They have no members of their own.
- The box's `padding` field is kept but never read, as in the source.
- Component.Store.AddChild: requires that the child is listed by no component and is not an ancestor of the parent. The source accepts any pair, but a cycle would make `Traverse`, `AbsX` and `AbsY` run forever, and a second listing would list the child twice.
- Component.Store.DetachParent: requires that no component lists the component, which holds at both uses in `RemoveComponent`.
- Tui.Tui.UpdateGeometry: for the whole pass it states the floating and root rules and the draw-map bookkeeping. The fill and grid rules are stated per component by `Tui.Tui.PlaceComponent`.
