# Life tracker: month-to-life-stage model

This project models the logic of the life-tracker page (`src/app/page.tsx`).
The page draws a lifespan as a grid of months, colour-coded by life stage.
The model covers four parts:

- **Stage table** (`LifeStages`): the ordered table childhood, school,
  studies, work, then "time with kids". Each entry has an inclusive
  `[from, to]` month range, counted from birth with month 1 as the first
  month of life. Each later primary stage starts one month after the
  previous one ends. The kids entry is pinned to `[0, 0]` and only stores
  its per-child intervals.
- **Month classifier** (`Classifier`): the page's `getLifeStageByMonthNumber`.
  It returns the first entry in insertion order whose range contains the
  month, or nothing.
- **Grid dimensions** (`GridSettings`): rows are the target age divided by
  the years per row, rounded as `Math.round` rounds. Columns are the years
  per row times twelve.
- **Grid fold** (`LifeGrid`): the page's `Grid` component without its
  markup. It is a fold over rows whose state is a running month counter and
  the colour of the last row label. Each cell gets a month number and an
  optional stage. A row gets a label when the stage of its first month has
  a colour other than the tracked one. `RenderGrid` builds the same grid
  with mutable counters, as the page does, and is proved equal to the fold.

The date library's month differences (`differenceInMonths` over
`addYears` and `new Date()`) are inputs of the model (`Milestones`, `Kid`).
They are signed integers, because the library's month difference is
signed. Lemmas that need chronological order assume it explicitly
(`LifeStages.Ordered`).

Two behaviours of the code are worth stating plainly:
- Ranges can be inverted. When the current date is before the end of
  studies, work's `to` is below its `from`. The classifier never returns an
  inverted entry.
- Labels look only at each row's first month. A stage that starts mid-row
  is labelled on the following row. A stage that starts and ends inside one
  row is never labelled.

The functions that compute are `LifeStages.BuildLifeStages` (the table),
`Classifier.Classify` (the lookup), `GridSettings.Rows` and
`GridSettings.Columns` (the dimensions), and `LifeGrid.RowLabel`,
`LifeGrid.RowCells`, `LifeGrid.GridFrom` and `LifeGrid.Grid` (the fold,
with `Grid` being the fold over the classifier from an empty state). The
lemma rows below state what these functions compute.

## Model

| member | source | states |
|---|---|---|
| LifeStages.BuildLifeStages | src/app/page.tsx:59-122 | The table has five entries in the order childhood, school, studies, work, kids. Childhood starts at month 1. School, studies and work each start one month after the previous entry ends. Childhood ends at the school-age month count and school at the school-end month count. Studies and work last exactly the given month differences. Kids is `[0, 0]` and holds the per-child intervals. The colours are teal, sky, amber, rose and lime, so they are pairwise distinct. The entries are named "Childhood", "School", "Studies", "Work" and "Time with kids". |
| LifeStages.KidSpans | src/app/page.tsx:97-120 | There is one overlay interval per child. It keeps the child's name, starts at the child's birth month, and lasts the months to the child's eighteenth birthday. |
| LifeStages.ChainedOrdered | src/app/page.tsx:73-87 | In a contiguous, non-inverted table, every earlier entry ends before any later entry begins. |
| LifeStages.ChainedDisjoint | src/app/page.tsx:63-91 | In such a table, no month lies in two different entries. |
| LifeStages.ChainedCovers | src/app/page.tsx:63-91 | In such a table, the entries together cover exactly the months from 1 to the last entry's end. |
| LifeStages.PrimaryStagesPartition | src/app/page.tsx:63-91 | With non-negative month differences and childhood ending no later than school, the four primary stages are contiguous from month 1. A month lies in one of them iff it is between 1 and the end of work, and it never lies in two. |
| Classifier.FirstMatchFrom | src/app/page.tsx:127-131 | The result is the first position at or after `i` whose inclusive range contains the month. It is nothing exactly when no such entry exists. |
| Classifier.FirstMatchCharacterization | src/app/page.tsx:127-137 | The lookup returns position `k` iff entry `k` contains the month and no earlier entry does. It returns nothing iff no entry contains the month. |
| Classifier.Classify | src/app/page.tsx:127-137 | The returned stage contains the month and is the first entry that does. Nothing is returned iff no entry contains the month. |
| Classifier.InvertedNeverMatches | src/app/page.tsx:128-131 | An entry with `to < from` is never returned, for any month. |
| Classifier.FirstMatchFromOnlyReadsBounds | src/app/page.tsx:128-131 | Two tables whose entries have the same bounds classify every month to the same position. Names, colours and per-child intervals play no part. |
| Classifier.KidsOverlayInert | src/app/page.tsx:92-131 | No month from 1 on is classified as kids. Replacing the children by any other list changes no classification. |
| Classifier.MonthOneIsChildhood | src/app/page.tsx:59-68 | When childhood is non-empty, month 1 is classified as the childhood entry. |
| Classifier.MonthZeroIsKids | src/app/page.tsx:92-96 | With the dates in order, month 0 is classified as kids, because of the pinned `[0, 0]` range. The page never asks about month 0. |
| Classifier.NoWorkBeforeStudiesEnd | src/app/page.tsx:84-91 | While the current date is not after the end of studies, no month is classified as work. |
| Classifier.ClassifyOrderedTable | src/app/page.tsx:127-137 | With the dates in order, a month from 1 on is classified as primary stage `k` iff it lies in that stage's range. It is classified as nothing iff it lies after the end of work. |
| GridSettings.RoundedQuotient | src/app/page.tsx:55 | The result is the unique `r` with `r - 1/2 <= a/b < r + 1/2`. This is `Math.round` of the quotient, with halves rounded up. |
| GridSettings.Rows | src/app/page.tsx:50-55 | There is no row count exactly when the years per row is 0. Otherwise the count is the target age over the years per row, rounded to nearest with halves rounded up. |
| GridSettings.Columns | src/app/page.tsx:56 | A row is a whole number of years. The column count divided by the months per year is the years per row, with no remainder. |
| GridSettings.PageDimensions | src/app/page.tsx:50-57 | The page's constants 12, 70 and 3 give 23 rows and 36 columns. |
| LifeGrid.RowLabel | src/app/page.tsx:150-169 | The decision is correct (`IsRowDecision`). When the row's first month has a stage, its colour becomes the tracked colour; otherwise the tracked colour is kept. The row is labelled iff the tracked colour changes. The label is that stage's name, colour and duration `to - from`. |
| LifeGrid.RowDecisionUnique | src/app/page.tsx:150-169 | Only one label decision is correct for a given row and tracked colour. |
| LifeGrid.GridFrom | src/app/page.tsx:149-191 | The fold emits exactly one row per requested row. |
| LifeGrid.RowCells | src/app/page.tsx:174-185 | A row after month `c` has `n` cells. Cell `j` holds month `c + j + 1` and that month's stage. |
| LifeGrid.GridFromCellsAt | src/app/page.tsx:149-189 | Row `i` of a fold from any state has `cols` cells. Column `j` holds the month `counter + RowStart(i) + j` and its stage. |
| LifeGrid.GridCells | src/app/page.tsx:139-191 | The page's grid has `rows` rows of `cols` cells. The cell at row `i`, column `j` holds month `i*cols + j + 1` and the classifier's stage for it. |
| LifeGrid.GridFromLabelAt | src/app/page.tsx:149-169 | Row `i` of a fold is labelled iff the stage of its first month exists and has a colour other than the tracked one. The tracked colour is the colour of the latest earlier row whose first month had a stage, else the starting colour. The label carries that stage's name, colour and duration `to - from`. |
| LifeGrid.GridLabels | src/app/page.tsx:139-169 | The same label rule holds for every row of the page's grid, with no colour tracked before the first row. |
| LifeGrid.RenderRowStep | src/app/page.tsx:149-169 | One row step advances the counter by `cols`. It sets the tracked colour to the stage colour of the row's first month when that stage exists, and otherwise keeps it. |
| LifeGrid.GridFromMonths | src/app/page.tsx:139-178 | A fold from a state with counter `c` numbers its cells `c+1 .. c + rows*cols`, in order. |
| LifeGrid.GridMonthsConsecutive | src/app/page.tsx:139-191 | The page's grid numbers its cells `1 .. rows*cols`. The numbers strictly increase, so there are no repeats, and every month in the range occurs. |
| LifeGrid.StageInsideRowNeverLabelled | src/app/page.tsx:149-164 | Suppose colours are distinct and a stage's range lies strictly between the first months of two consecutive rows. Then no row label carries that stage's colour. |
| LifeGrid.FirstRowIsChildhood | src/app/page.tsx:149-164 | When childhood is non-empty, the first row is labelled "Childhood", with its colour and a duration of childhood's last month minus 1. |
| LifeGrid.LifePage | src/app/page.tsx:124-125 | The page yields a grid exactly when the years per row is not 0. The grid then has the computed number of rows. |
| LifeGrid.LifePageCells | src/app/page.tsx:124-191 | When the page yields a grid, every row has `Columns(s)` cells. Cell `j` of row `i` holds month `i*Columns(s) + j + 1` and the stage the milestones' table gives that month. |
| LifeGrid.LifePageLabels | src/app/page.tsx:124-169 | When the page yields a grid, row `i` is labelled by the rule of `GridLabels` over the milestones' table. The row's first month is `RowStart(Columns(s), i)` and no colour is tracked before the first row. |
| LifeGrid.RenderGrid | src/app/page.tsx:139-194 | The row-by-row build with a mutable counter and tracked colour yields exactly the fold. |
| LifeGrid.LabelRow | src/app/page.tsx:150-169 | The if-statement form of the decision is correct (`IsRowDecision`). The tracked colour changes iff a label is emitted. It changes to the colour of the first month's stage when one exists, and the label carries that stage's name, colour and duration. |
| LifeGrid.RenderCells | src/app/page.tsx:174-188 | The inner loop, which bumps the counter before each cell, yields exactly the fold's row of cells. |

## Left out

- The date library calls (`differenceInMonths`, `addYears`, `differenceInYears`) and `new Date()` are not modelled. Every month difference is an input. Nothing is claimed about their values, for example that seven years are 84 months.
- The page recomputes each `from`/`to` closure on every call, and `new Date()` could move between calls. The model computes the table once from fixed inputs.
- The JSX tree, the class strings, the `mr-3` spacing after columns 11 and 23, the `Header` component and the unused `userCurrentAge` are presentation only.
- Colour class strings are modelled as the abstract `Color` tokens, one per entry. Every class string is non-empty, so the page's truthiness test on `nextLifeStage?.color` holds exactly when a stage was found.
- GridSettings.Rows: the operands `targetYO` and `yearColumns` are non-negative integers. `Math.round` on negative or non-integer operands is not modelled. JavaScript's floating-point division is treated as exact; this only matters for operands far larger than the page's.
- LifeGrid.LifePage: with 0 years per row the page calls `Array(Infinity)` or `Array(NaN)`, and that throws. The model returns no grid instead of modelling the exception.
