# Verified model of the OpenStack CLI's algorithms

This project models the self-contained algorithms inside the command-line client and its test tools, and proves what
they promise. The imperative parts (rolling arrays, in-place sorting and shrinking, a mutable command tree, the option
parser's fields, the clean-up ledger) are Dafny methods and classes proved against value-level specifications; the
promises are then proved about those specifications.

`dafny verify dfyconfig.toml` verifies everything.

## What is modelled

**Command suggestions** (`EditDistance`, `Suggestions`). The typo distance rotates three buffers. It is proved to
compute a table, and the table to give the cheapest edit script: some script costs exactly that much and none costs
less, where keeping is free, inserting costs 1, substituting 2, deleting 3 and exchanging two disjoint neighbours
nothing; between texts without a common character the cost is a formula in their lengths. The suggestions for a word are
exactly the sorted completions followed by the sorted commands whose first word is nearest.

**Table layout** (`Wrapping`, `WrappingLaws`, `WordLaws`, `HyphenLaws`, `ColumnWidths`, `NaturalWidths`, `CliffWidths`,
`TableText`, `TableLaws`, `TableContents`, `TableLooks`, `TableRendering`, `RowSorting`). Wrapping at white space and at
hyphens ends, fits the column, cuts as late as it can and loses only white space, and it is stated exactly when words and
hyphen groups stay whole. Natural widths are the longest lines of a column, and at them nothing is cut. Shrinking of the
enhanced tables is water-filling, which pins the result down and makes it the fairest one; their columns take exactly the
smaller of the natural and the usable width, and identifier columns are given up last. Plain tables that are too wide come
out exactly as wide as the terminal exactly when the borders fit and the share of a wide column covers `minWidth`. Whatever
is written is a rectangle with three borders, with bars, blanks and alignment where they belong; every cell can be read
back out of its column, and the comparison tool's row sorting sorts exactly the lines between the second and third border.

**Canonical JSON** (`Json`, `JsonText`, `JsonShape`, `ParityOracle`). The texts that Go's encoder gives, compact or indented,
determine their values. With that text as sort key, the canonical form decides equality up to the order of array
elements at every depth: two values have the same canonical form, and the same canonical text, exactly when one is such
a reordering of the other (section 3 of RFC 8259 names the values). It is stated which outputs are read as JSON, what their
texts look like, and that string texts read back (section 7 of RFC 8259).

**Command tree** (`CommandSpec`, `CommandTree`). A mutable tree grown one command path at a time, in whatever order,
holds exactly the non-empty prefixes of the listed paths, besides the program's own root, `help` and `complete`. Those
three and the listed paths are the runnable ones; a listed path runs what was registered under it, even when longer
commands pass through it, and every node on the way shows the help of its own path.

**Small languages and orders** (`Placement`, `PlacementRoundTrip`, `SshOptions`, `SshLaws`, `Versions`,
`SshEffects`, `QuotaFields`). Allocation strings parse exactly when they are well formed and consistent, to their union, in any order;
printed allocations, one or all together, parse back exactly when the format can carry their names. SSH options mean the same attached or
detached, never both force and disable a terminal, and the life-cycle tool's argument list is read back exactly; over a
whole argument list the last option that sets a field decides it, and the first that means nothing gives the error. Version
comparison is a strict total order. Quota fields come out complete, once each, and grouped, whatever the map order.

**Clean-up ledger** (`CleanupLedger`). A state machine over registering, dropping and running in reverse. Over every
run each registered cleanup is exactly once pending, dropped or executed.

`Text`, `Orders`, `Permutations`, `Options` and `Decimal` hold the parts of Go's library that these rely on: white space, fields,
splitting and joining, string order and sorting, and decimal conversion of 64-bit integers. Loops over Go maps take the
keys in an arbitrary order, so what is proved holds for every iteration order.

## What the proofs showed

- Plain wrapping may split a word that would fit when the line is indented (`WordLaws.IndentSplitsWord`). No word of at
  most `width` characters is split exactly when the line has no leading white space, or at least `width` of it, or the
  indented first word still fits, or that word is itself longer than `width` (`WordLaws.WordsKeptIff`). Without the last
  case, it is exactly when long words also come out in stretches of `width` (`WordLaws.ChoppedIff`).
- Hyphen wrapping may split a hyphen group that fits, because its loop does not look at index 0: a lone hyphen cannot end
  a piece (`HyphenLaws.LoneHyphenExample`), and the last character of a long group can become one
  (`HyphenLaws.LongGroupExample`). Whether it happens depends on the group lengths of the value alone: no group that fits
  is split exactly when filling pieces with groups of these lengths never has to break one behind a lone hyphen
  (`HyphenLaws.ShortGroupsKeptIff`), and every piece but the last ends in a hyphen exactly when, moreover, all groups
  fit (`HyphenLaws.GroupsKeptIff`). When no group as wide as the column follows a group of length 1, as always with
  single hyphens inside the value, it is exactly when all groups fit (`HyphenLaws.GroupsKeptWithoutLone`,
  `HyphenLaws.SingleGroupsKeptIff`).
- At width 0 the hyphen wrapper makes no progress (`WrappingLaws.ProgressIffWidth`). Its caller supplies a positive
  width for every column exactly when there are at least as many usable cells as columns
  (`ColumnWidths.PrettyTableColumns`).
- Fitting a plain table may widen its wide columns past the terminal when `minWidth` exceeds their share
  (`CliffWidths.AssignCliffStyleMaxWidths`, `CliffWidths.MinWidthBeyondShare`).
- Dropping a cleanup when nothing is pending forgets that an earlier clean-up failed
  (`CleanupLedger.DropForgetsFailure`). This is a property of the ledger's interface; the life-cycle run ends after every
  clean-up, so it does not get there.
- A remote command that starts with a dash, other than a single dash, is not passed through
  (`SshLaws.PassThroughRoundTrip`, `SshLaws.DashedCommandLost`).
- An empty provider name, an empty set of amounts, a class called `rp`, and names with `=` or `,` are exactly what the
  allocation format cannot carry (`PlacementRoundTrip.RoundTripIff`, `PlacementRoundTrip.ClassNamedRpExample`).

## Model

| member | source | states |
|---|---|---|
| EditDistance.DamerauLevenshtein | internal/cli/root.go:537-581 | the rotating rows and the three early returns give the least total cost over all edit scripts |
| EditDistance.FillRow | internal/cli/root.go:562-579 | one pass of the inner loop turns two finished table rows into the next one |
| EditDistance.MinInt | internal/cli/root.go:583-591 | the result is one of the arguments and no argument is smaller |
| EditDistance.LeastOfFour | internal/cli/root.go:564-577 | a table entry is no larger than any of its four ways to come about, and equal to one of them |
| EditDistance.FitsWrites | internal/cli/root.go:562-579 | an edit reads and writes the ends of the prefixes exactly when the characters there fit it |
| EditDistance.Achieved | internal/cli/root.go:562-579 | every table entry is the cost of some edit script for the two prefixes |
| EditDistance.NoneCheaper | internal/cli/root.go:562-579 | no edit script for two prefixes costs less than the table entry |
| EditDistance.TableIsCheapest | internal/cli/root.go:537-581 | the last table entry is the cost of a cheapest script |
| EditDistance.DistanceRange | internal/cli/root.go:537-581 | lower and upper bounds from the two lengths, and the distance is 0 exactly for swaps of disjoint neighbours |
| EditDistance.DisjointDistance | internal/cli/root.go:537-581 | between texts without a common character, the cheapest script costs 2 for each place they share and 1 or 3 for each place that only one of them has |
| EditDistance.ZeroMeansSwapped | internal/cli/root.go:562-579 | a table entry is 0 exactly when one prefix is the other with disjoint neighbours exchanged |
| Suggestions.CatalogCommandNames | internal/cli/root.go:521-535 | the set of all commands in all groups, sorted, each once |
| Suggestions.RankCommands | internal/cli/root.go:484-496 | completions rank 0, others one more than the edit distance to their first word |
| Suggestions.TakeClosest | internal/cli/root.go:503-513 | the scan keeps exactly the commands than which none at a positive distance is closer, in their order |
| Suggestions.FuzzyCommandMatches | internal/cli/root.go:482-514 | exactly the sorted completions, then the sorted set of all others at the least distance; no duplicates; non-empty for a non-empty catalog |
| Suggestions.NearestMeans | internal/cli/root.go:482-514 | the nearest commands are exactly those that are no completions and whose first word a script reaches at the least cost |
| Orders.BeforeMeans | internal/cli/root.go:497-502 | in the order of equally near commands the first character that differs decides, and a proper prefix comes first |
| Wrapping.SplitTableLine | internal/cli/table.go:271-295 | the cut falls at the last white space inside the width, or at the width |
| Wrapping.PrettySplitTableLineAtHyphen | internal/cli/output.go:741-754 | the cut falls after the last hyphen inside the width, otherwise as for plain lines |
| Wrapping.WrapTableLine | internal/cli/table.go:253-269 | the wrapping loop of either style ends and yields the pieces, starting from the right-trimmed line |
| Wrapping.PrettyWrapTableCell | internal/cli/output.go:692-705 | both cell paths: line ends normalised, every line wrapped in its style, in order |
| Wrapping.WrapAllLines | internal/cli/output.go:697-704 | the lines are wrapped one after the other, none left out |
| WrappingLaws.CellFits | internal/cli/table.go:237-251 | no piece is wider than the column |
| WrappingLaws.CutIsLatest | internal/cli/table.go:271-295 | no later white space inside the width would have left more on the line |
| WrappingLaws.CellLinesApart | internal/cli/table.go:237-251 | a line end in either spelling starts a new line, and both sides are wrapped on their own |
| WrappingLaws.ReturnIsBlank | internal/cli/table.go:241 | in a plain cell a lone carriage return is a blank |
| WrappingLaws.IdentifierLinesApart | internal/cli/output.go:692-705 | in an identifier cell a lone carriage return starts a new line, too |
| WrappingLaws.TrailingIgnored | internal/cli/table.go:253-257 | white space at the end of a line changes nothing, and a blank line is one empty piece |
| WrappingLaws.LaterPiecesStartSolid | internal/cli/table.go:259-267 | no piece but the first of a line starts with white space |
| WordLaws.PiecesChopOnlyLongWords | internal/cli/table.go:253-295 | from a line that starts with a word, exactly the words longer than the width are cut, into stretches of the width |
| WordLaws.IndentedWordSplit | internal/cli/table.go:271-295 | an indented first word that does not fit the rest of the width is cut although it may be short |
| WrappingLaws.IdentifierCellFits | internal/cli/output.go:692-705 | no piece of an identifier cell is wider than the column |
| WrappingLaws.RestNeverEmpty | internal/cli/table.go:259-267 | the rest after a cut is never empty, so the early return inside the loop is unreachable |
| WrappingLaws.ProgressIffWidth | internal/cli/output.go:729-737 | a round of the hyphen loop shortens the line exactly when the width is positive |
| WrappingLaws.CellKeepsSolid | internal/cli/table.go:237-269 | both styles keep all visible characters in order |
| WrappingLaws.JoinRestores | internal/cli/output.go:1295-1305 | joining the pieces of a value without white space gives the value back |
| WordLaws.WordsKeptIff | internal/cli/table.go:253-295 | no word of at most `width` characters is split, exactly when there is no leading white space, or at least `width` of it, or the first word fits behind it, or that word is longer than `width` |
| WordLaws.ChoppedIff | internal/cli/table.go:253-295 | short words come out whole and long ones in stretches of `width`, exactly under the first three of these conditions |
| WordLaws.IndentSplitsWord | internal/cli/table.go:253-295 | an indented line of which a word that fits the column is split |
| HyphenLaws.CutAtHyphen | internal/cli/output.go:741-754 | without white space, a cut falls after the last hyphen at index 1 or more, or else at the width, and nothing is lost |
| HyphenLaws.CutSplitsIff | internal/cli/output.go:741-754 | wherever the text to cut stands in a line, the cut splits a group of the line that fits exactly when the text starts with a lone hyphen before a group as wide as the column |
| HyphenLaws.PacksCut | internal/cli/output.go:723-754 | one piece filled with group lengths is one cut of the text |
| HyphenLaws.ShortGroupsKeptIff | internal/cli/output.go:723-754 | no hyphen group that fits is split, whatever the others are, exactly when the group lengths of the value pack |
| HyphenLaws.GroupsKeptIff | internal/cli/output.go:723-754 | every piece but the last ends in a hyphen, exactly when all group lengths of the value fit and pack |
| HyphenLaws.GroupsKeptWithoutLone | internal/cli/output.go:723-754 | when no group as wide as the column follows one of length 1, exactly when all groups fit |
| HyphenLaws.SingleGroupsKeptIff | internal/cli/output.go:723-754 | with single hyphens inside the value, exactly when all groups fit |
| HyphenLaws.StuckSplits | internal/cli/output.go:746-750 | a lone hyphen at the front, before a group as wide as the column or wider, splits that group |
| HyphenLaws.LoneHyphenExample | internal/cli/output.go:746-750 | a value whose groups all fit and are not kept together |
| HyphenLaws.LongGroupExample | internal/cli/output.go:746-750 | a value with single hyphens of which a group that fits is split, because a longer one comes before it |
| ColumnWidths.MostShrinkable | internal/cli/output.go:794-802 | the leftmost column with the largest positive slack, or none |
| ColumnWidths.ShrinkOnce | internal/cli/output.go:793-807 | one round keeps the widths water-filled and takes exactly one cell, or finds every column at its floor |
| ColumnWidths.SumInts | internal/cli/table.go:326-332 | the total is the sum of all entries |
| ColumnWidths.ShrinkKeepsWaterFilled | internal/cli/output.go:791-809 | taking a cell from the leftmost column of largest slack keeps the widths water-filled, one level down |
| ColumnWidths.PrettyFitWidths | internal/cli/output.go:791-809 | the loop ends water-filled, with the usable width as sum unless the floors need more or the widths less |
| ColumnWidths.WaterFillUnique | internal/cli/output.go:791-809 | at most one list of widths of a given sum is water-filled |
| ColumnWidths.WaterFillFairest | internal/cli/output.go:791-809 | no other widths of the same sum within the same bounds have a smaller largest slack |
| ColumnWidths.PrettyMinimumWidths | internal/cli/output.go:756-765 | header width kept within 4 and 12, and 12 for identifier-like names |
| ColumnWidths.PrettyMinimumWidthsForWidth | internal/cli/output.go:767-789 | columns are given up from the left until the minimums fit, and levelled if they never do |
| ColumnWidths.MinimumsMean | internal/cli/output.go:756-789 | the fewest columns from the left are given up that is enough, none that looks like an identifier; when that is not enough, and only then, all are levelled |
| ColumnWidths.MinimumsAlwaysFit | internal/cli/output.go:767-789 | the minimums never exceed the usable width, and are at least 1 when there are as many cells as columns |
| ColumnWidths.PrettyNaturalWidths | internal/cli/output.go:628-642 | header and cells of each column are measured, cells beyond the header left out; what the widths are is `NaturalWidths.NaturalWidthsMean` |
| ColumnWidths.PrettyTableColumns | internal/cli/output.go:590-626 | the sum is exactly the smaller of the natural width and what borders and padding leave, water-filled; all columns are positive exactly when the cells suffice |
| ColumnWidths.ViewFits | internal/cli/output.go:612-626 | with borders and padding, which fit the terminal, the table is as wide as the smaller of its natural width and the terminal |
| NaturalWidths.NaturalWidthsMean | internal/cli/output.go:628-642 | the width of the longest line in the column, kept within 4 and 64 |
| CliffWidths.CliffWidthInfo | internal/cli/table.go:134-140 | usable width and the largest equal share: with one cell more the shares would not fit |
| CliffWidths.CliffShrinkFields | internal/cli/table.go:142-153 | exactly the columns above the equal share, from left to right, and what the others leave |
| CliffWidths.ShareOut | internal/cli/table.go:124-131 | every wide column gets the share but the last, which gets what is left, each at least `minWidth` |
| CliffWidths.ShareAtLeastOptimal | internal/cli/table.go:122-131 | the wide columns' share is at least the equal share, despite two rounded divisions |
| CliffWidths.ShareIsLargest | internal/cli/table.go:122-131 | the share of the wide columns is the largest that fits what the narrow ones leave |
| CliffWidths.FittedSumTotal | internal/cli/table.go:124-131 | the shares never sum to less than what was left, and exactly to it exactly when the share covers `minWidth` |
| CliffWidths.SomeColumnIsWide | internal/cli/table.go:112-132 | a table that is too wide has a column above the equal share when the borders fit |
| CliffWidths.AssignCliffStyleMaxWidths | internal/cli/table.go:112-132 | narrow columns stay, the result is never narrower than the terminal, and exactly as wide exactly when the share covers `minWidth` and the borders fit |
| CliffWidths.RoomMeansExact | internal/cli/table.go:112-132 | room for `minWidth` in every column is enough for an exact fit |
| CliffWidths.MinWidthBeyondShare | internal/cli/table.go:122-131 | two columns and a terminal for which `minWidth` exceeds the share, so that no exact fit results |
| TableText.WriteTableBorder | internal/cli/table.go:177-188 | appends one border line |
| TableText.WriteTableLine | internal/cli/table.go:209-226 | appends one line: the matching piece of every cell, or blanks, aligned between bars |
| TableText.WrapRow | internal/cli/table.go:190-207 | every column's cell wrapped, missing cells empty, and the height of the highest |
| TableText.WriteTableRow | internal/cli/table.go:190-228 | appends the lines of one row: as many as its highest cell has pieces, each cell aligned |
| TableText.WriteTable | internal/cli/table.go:159-175 | appends border, header, border, rows, border |
| TableLaws.TableIsRectangular | internal/cli/table.go:155-228 | every line has exactly 1+3n+sum(widths) characters and no newline; exactly three lines start with '+', the others with a bar |
| TableLaws.WrapCellHasNoNewline | internal/cli/table.go:237-251 | no piece of a cell holds a newline |
| TableContents.CellOnLine | internal/cli/table.go:209-226 | each cell's text stands at its column's place on every line |
| TableContents.PaddingIsBlank | internal/cli/table.go:230-311 | aligning adds only white space |
| TableContents.CellSurvives | internal/cli/table.go:190-228 | reading a column of positive width down a written row gives the cell back, white space aside |
| TableLooks.BorderLooks | internal/cli/table.go:177-188 | a border has a plus at every bar and dashes everywhere else |
| TableLooks.AlignLooks | internal/cli/table.go:230-311 | the piece stands at the left end of its place, or at the right end when so aligned, and blanks fill the rest |
| TableLooks.RowLooks | internal/cli/table.go:190-228 | every line of a row stands between bars and shows in every column the right piece of the right cell, aligned as asked; there are as many lines as the highest cell needs |
| TableLooks.BodySurvives | internal/cli/table.go:159-175 | reading a column of positive width down the body gives the cells in the order of the rows, white space aside |
| NaturalWidths.NaturalTableMeans | internal/cli/table.go:51-65 | every line of the header and of the cells fits its column, and one of them fills it |
| NaturalWidths.NaturalCutsNothing | internal/cli/table.go:237-269 | at the natural width the pieces of a cell are its lines, without trailing white space |
| TableRendering.NaturalTableWidths | internal/cli/table.go:51-65 | header and cells of each column are measured, cells beyond the header left out; what the widths are is `NaturalWidths.NaturalTableMeans` |
| TableRendering.RenderTableAligned | internal/cli/table.go:37-49 | end to end, one bordered table is written, as wide as its natural width or the target allows; unfitted tables have no line cut, and fitting leaves narrow columns as they are |
| RowSorting.FindBody | tools/compat-check/main.go:548-566 | the scan stops at the third border and gives the place after the second |
| RowSorting.SortTableDataRows | tools/compat-check/main.go:547-572 | the in-place sorting computes the sorted text |
| RowSorting.SortsBetweenBorders | tools/compat-check/main.go:547-572 | on any text with three borders exactly the lines between the second and the third are sorted |
| RowSorting.TooFewBorders | tools/compat-check/main.go:560-566 | a text without three borders stays as it is |
| RowSorting.SortRowsIdempotent | tools/compat-check/main.go:547-572 | on any text: a permutation of the lines that leaves every border in place, and twice is once |
| RowSorting.CopyInto | tools/compat-check/main.go:568-570 | copying the sorted rows back changes only their stretch of the lines |
| RowSorting.SortRowsOfTable | tools/compat-check/main.go:547-572 | on a written table exactly the body lines are sorted |
| JsonText.EncodeInjective | tools/lifecycle-smoke/oracle.go:197-201 | values with the same text are equal, in either layout |
| JsonText.EscapeUnique | tools/lifecycle-smoke/oracle.go:197-201 | the escapes inside string texts can be told apart and off from what follows |
| JsonShape.EscapeReads | tools/lifecycle-smoke/oracle.go:177-182 | reading a string text by the rules for string literals gives the string back |
| JsonShape.EscapeForms | tools/lifecycle-smoke/oracle.go:177-182 | which characters stand for themselves, which take a short escape, and which a numeric one: those of HTML among them |
| JsonShape.ArrayText | tools/lifecycle-smoke/oracle.go:177-182 | the elements in order, with commas between them, each on a line of its own when indented |
| JsonShape.ObjectText | tools/lifecycle-smoke/oracle.go:177-182 | the members in the order of their keys, key and value with a colon between them |
| ParityOracle.CanonicalParityValue | tools/lifecycle-smoke/oracle.go:185-207 | the loops over members and elements compute the canonical form for every map order |
| ParityOracle.CanonicalMembers | tools/lifecycle-smoke/oracle.go:187-192 | every member in canonical form, in whatever order the map is walked |
| ParityOracle.CanonicalItems | tools/lifecycle-smoke/oracle.go:193-197 | every element in canonical form, in order |
| ParityOracle.CanonDecides | tools/lifecycle-smoke/oracle.go:185-207 | equal canonical forms exactly for values that are equal up to array order at every depth |
| ParityOracle.CanonIsEquivalent | tools/lifecycle-smoke/oracle.go:185-207 | the canonical form is itself a reordering of the value |
| ParityOracle.CanonIdempotent | tools/lifecycle-smoke/oracle.go:185-207 | canonicalising twice changes nothing |
| ParityOracle.CanonIsTheSortedOne | tools/lifecycle-smoke/oracle.go:185-207 | the canonical form is the only reordering whose arrays are all sorted by their elements' texts |
| ParityOracle.CanonicalParityJSON | tools/lifecycle-smoke/oracle.go:166-183 | decides which texts are read, and writes the canonical text of their value; the laws below say which and what |
| ParityOracle.ParityJSONReads | tools/lifecycle-smoke/oracle.go:166-183 | a text is made canonical exactly when, behind white space, it starts like an object or an array and decodes; any other stays as it is |
| ParityOracle.ReadBecomesSorted | tools/lifecycle-smoke/oracle.go:177-182 | what a text becomes: the indented text and a newline of a reordering with all arrays sorted |
| ParityOracle.ParityTextDecides | tools/lifecycle-smoke/oracle.go:177-182 | the canonical texts are equal exactly for values that are equal up to array order |
| ParityOracle.ParityJSONDecides | tools/lifecycle-smoke/oracle.go:166-183 | two outputs that start like an object or an array and decode become the same text exactly when their values are equal up to array order |
| ParityOracle.EquivalenceRelation | tools/lifecycle-smoke/oracle.go:185-207 | equality up to array order is reflexive, symmetric and transitive |
| CommandTree.Tree.FindChild | internal/cli/registry.go:2296-2303 | the child of that name, or none exactly when the tree has no such path |
| CommandTree.Tree.Find | internal/cli/registry.go:2296-2303 | following words from the root arrives exactly at the paths of the tree's value |
| CommandTree.Tree.ConfigureLeaf | internal/cli/registry.go:310-337 | help text, description and the handler of the path, or the not-implemented one |
| CommandTree.Tree.ConfigureIntermediate | internal/cli/registry.go:304-308 | help only: an existing handler stays |
| CommandTree.Tree.AddChild | internal/cli/registry.go:282-292 | a new last child with a new name: one path more in the tree's value, everything else as before |
| CommandTree.Tree.Walk | internal/cli/registry.go:280-300 | one word: the child is found or made, then configured as a leaf or as a step on the way |
| CommandTree.Tree.AddCommand | internal/cli/registry.go:273-302 | the tree's value changes at the non-empty prefixes of the path and nowhere else; a blank path does nothing |
| CommandTree.Tree.AddCatalogCommands | internal/cli/registry.go:265-271 | all commands of all groups are added, in order |
| CommandTree.NewRootCommand | internal/cli/root.go:175-231 | the finished tree, with its root and own commands, is the one determined by the set of command paths, whatever their order or grouping |
| CommandTree.RunnableExactly | internal/cli/root.go:175-231 | which words lead to a node, which of these are runnable, which handler every listed path runs (the registered one, or else the not-implemented one), and the help and description of every node |
| CommandTree.ListedRunsItsHandler | internal/cli/registry.go:319-336 | a command listed as words with single blanks is found under these words and runs what was registered for it |
| CommandTree.BuiltinCommands | internal/cli/root.go:175-231 | the root and the program's own commands keep running and describing themselves unless the catalog lists one of that name |
| CommandSpec.AddAllIsExpected | internal/cli/registry.go:265-302 | adding paths one by one gives the tree of their set |
| CommandSpec.OrderIrrelevant | internal/cli/registry.go:265-302 | permuting the commands changes nothing |
| Decimal.AtoiOfItoa | internal/cli/placement_read.go:85-92 | every 64-bit amount reads back as printed |
| Decimal.AtoiReads | internal/cli/placement_read.go:1029-1032 | exactly an optional sign and digits are read, as the number they denote when it has 64 bits |
| Decimal.PlaceValue | internal/cli/placement_read.go:1029-1032 | the first digit counts for the power of ten of the digits behind it |
| Placement.ParseValue | internal/cli/placement_read.go:1015-1038 | one string is parsed as its parts say, with the format, integer and missing-provider errors |
| Placement.StringReads | internal/cli/placement_read.go:1014-1038 | every part reads as a provider, an amount or an error; the first error wins, and otherwise the last provider named, wherever it stands, gets the last amount of each class |
| Placement.MergeResources | internal/cli/placement_read.go:1044-1049 | in whatever order the map is walked, a conflict is found exactly when there is one, and otherwise the union results |
| Placement.MergeStep | internal/cli/placement_read.go:1039-1049 | merging one more string succeeds exactly when all given so far agree, and keeps the union |
| Placement.ParsePlacementAllocations | internal/cli/placement_read.go:1012-1052 | the strings are parsed and merged from left to right, stopping at the first error |
| Placement.ParseAllIsUnion | internal/cli/placement_read.go:1012-1052 | success exactly when all strings are well formed and no two disagree, with the union as result |
| Placement.FirstErrorWins | internal/cli/placement_read.go:1012-1052 | the error is that of the first string that cannot be read or gives a provider another amount than those before it |
| Placement.OrderIrrelevant | internal/cli/placement_read.go:1012-1052 | neither order nor repetition of the strings changes success or the result |
| PlacementRoundTrip.PlacementResourceAmounts | internal/cli/placement_read.go:85-92 | the printed amounts do not depend on the map order |
| PlacementRoundTrip.PrintedInOrder | internal/cli/placement_read.go:85-92 | the printed parts are class, equals sign and amount, once for each class, in alphabetical order |
| PlacementRoundTrip.RoundTripIff | internal/cli/placement_read.go:1012-1052 | one provider's printed allocation parses back to it exactly when the format can carry its names |
| PlacementRoundTrip.ClassNamedRpExample | internal/cli/placement_read.go:1026-1028 | amounts of a class called rp do not come back |
| PlacementRoundTrip.RoundTripRestores | internal/cli/placement_read.go:1012-1052 | printing every provider once, in any order, and parsing restores the whole map, exactly when the format can carry all names |
| SshOptions.ServerSSHInvocation.ParseServerSSHPassThrough | internal/cli/nova_extras.go:230-311 | the fields end up as the specification of the option language says, with the error at which parsing stopped |
| SshOptions.ServerSSHInvocation.ParseOption | internal/cli/nova_extras.go:231-308 | one option at a place: what it sets, how many words it takes, and the missing-argument error |
| SshOptions.ServerSSHInvocation.ApplyFlag | internal/cli/nova_extras.go:292-308 | one switch does to the fields what the specification says; what whole lists of switches do is in `SshEffects` |
| SshOptions.ServerSSHInvocation.ApplyServerSSHOption | internal/cli/nova_extras.go:321-371 | one -o option: its key and value, the field it sets, or the error |
| SshOptions.ServerSSHInvocation.SetHostKeyChecking | internal/cli/nova_extras.go:343-353 | the accepted values in lower case, off being no, and an error for others |
| SshLaws.Interchange | internal/cli/nova_extras.go:243-291 | in option position, attached and detached values give the same invocation or error |
| SshLaws.TTYExclusive | internal/cli/nova_extras.go:298-303 | a terminal is never both forced and disabled |
| SshEffects.ParseTakesEffect | internal/cli/nova_extras.go:230-311 | the argument list is read as option words with their values and a remote command; each option has its meaning, up to the first that has none |
| SshEffects.LastDecides | internal/cli/nova_extras.go:230-371 | a field that no option sets stays, and otherwise the last option that sets it, as a word or after -o, decides it |
| SshEffects.FirstErrorStops | internal/cli/nova_extras.go:230-371 | there is no error exactly when every option means something, and otherwise it is that of the first that does not |
| SshEffects.UnknownWordFails | internal/cli/nova_extras.go:306-308 | every word that is no option of the parser is an unsupported flag |
| SshEffects.AgentSwitches | internal/cli/nova_extras.go:292-297 | without -o, the last of -A and -a decides whether the agent is forwarded or disabled |
| SshEffects.TerminalSwitches | internal/cli/nova_extras.go:298-303 | the last of -t and -T decides whether a terminal is forced or disabled |
| SshEffects.VerboseSwitches | internal/cli/nova_extras.go:304-305 | verbose exactly when it was before or some option starts with -v |
| SshEffects.LastLogin | internal/cli/nova_extras.go:244-251 | without -o, the last -l gives the login |
| SshEffects.LastPort | internal/cli/nova_extras.go:252-269 | without -o, the last -p gives the port |
| SshEffects.FilesInOrder | internal/cli/nova_extras.go:230-311 | identity files and the words of the remote command are appended in order |
| SshEffects.KeyValueReads | internal/cli/nova_extras.go:321-331 | key and value stand around the first equals sign, or are two words |
| SshEffects.TruthyWords | internal/cli/nova_extras.go:373-380 | only yes, true, on and 1 are truthy, in any case and with any blanks around them |
| SshLaws.PassThroughRoundTrip | tools/lifecycle-smoke/server.go:350-367 | parsing the printed arguments recovers key, login, fixed options and command, exactly for commands that do not look like options |
| SshLaws.DashedCommandLost | tools/lifecycle-smoke/server.go:350-367 | a command that looks like an option does not come back |
| Versions.VersionLess | internal/cli/common_read.go:912-933 | the loop decides by the first differing part, then by spelling |
| Versions.LessMeans | internal/cli/common_read.go:912-933 | smaller means a smaller number at the first difference, missing parts being zero, or the same numbers and a smaller spelling |
| Versions.LongerVersion | internal/cli/common_read.go:912-933 | a missing part counts as zero: with a further part a version is larger exactly when that part is not negative |
| Versions.StrictTotalOrder | internal/cli/common_read.go:912-933 | irreflexive, asymmetric, transitive, and total on distinct strings |
| QuotaFields.QuotaVolumeTypeFields | internal/cli/common_read.go:1297-1335 | the listing is the same for every map iteration order |
| QuotaFields.TypesSeen | internal/cli/common_read.go:1299-1307 | the types of exactly the keys with one of the prefixes |
| QuotaFields.TypesInOrder | internal/cli/common_read.go:1308-1323 | the listed types followed by the sorted rest, in whatever order the map is walked |
| QuotaFields.TypesOrdered | internal/cli/common_read.go:1309-1324 | listed types first in the order of the service, then the others alphabetically; none lost or repeated |
| QuotaFields.FieldsExactly | internal/cli/common_read.go:1297-1335 | every key with one of the three prefixes exactly once, none else, in the order of the ranks by type and prefix |
| QuotaFields.ShownExactly | internal/cli/common_read.go:1297-1335 | a quota key is shown exactly when it starts with volumes_, gigabytes_ or snapshots_ |
| QuotaFields.FieldsInOrder | internal/cli/common_read.go:1324-1334 | fields of one type stand in the order of these prefixes, and fields of different types in the order of the types |
| CleanupLedger.ServerLifecycle.AddCleanupWithEnv | tools/lifecycle-smoke/server.go:836-839 | the cleanup is appended and clean-up becomes required |
| CleanupLedger.ServerLifecycle.DropCleanup | tools/lifecycle-smoke/server.go:841-851 | the list, the flag and the steps become those of the dropped ledger |
| CleanupLedger.ServerLifecycle.CleanupAll | tools/lifecycle-smoke/server.go:853-865 | all pending cleanups are run, also after failures, then forgotten; the failed ones are named in order |
| CleanupLedger.ServerLifecycle.RunPending | tools/lifecycle-smoke/server.go:854-861 | the pending cleanups are run from the last to the first, and each outcome is recorded |
| CleanupLedger.FailedNamesOfOne | tools/lifecycle-smoke/server.go:853-861 | a step is named exactly when its command exits with an error and its output does not say that the resource was gone |
| CleanupLedger.FailedNamesAppend | tools/lifecycle-smoke/server.go:853-861 | the names come in the order of the steps, none left out |
| CleanupLedger.ApplyConserves | tools/lifecycle-smoke/server.go:832-865 | every operation keeps each registered cleanup exactly once pending, dropped or executed |
| CleanupLedger.EveryRun | tools/lifecycle-smoke/server.go:832-865 | over every run: conservation, pending ones in order of registration, and required exactly while work is pending or the run just ended in a failed clean-up |
| CleanupLedger.RegisteredInOrder | tools/lifecycle-smoke/server.go:836-839 | over every run the ledger holds what was registered, with its arguments and in order, and each cleanup goes in at the end |
| CleanupLedger.DropTakesLatest | tools/lifecycle-smoke/server.go:841-851 | only the latest pending cleanup of that name goes, and the others keep their order |
| CleanupLedger.DropOfUnknownName | tools/lifecycle-smoke/server.go:841-851 | a name that is not pending drops nothing |
| CleanupLedger.PassRunsLatestFirst | tools/lifecycle-smoke/server.go:853-865 | one pass runs exactly the pending cleanups, latest first, and records for each what its command came to |
| CleanupLedger.DropForgetsFailure | tools/lifecycle-smoke/server.go:848-850 | a drop on an empty ledger clears the flag of an earlier failure, as the interface allows |

## Left out

- EditDistance.DamerauLevenshtein: requires ASCII text, because the source steps by rune and indexes by byte; on other text the rows are filled only in part.
- Suggestions.RankCommands: requires ASCII commands, because it calls the distance.
- Suggestions.FuzzyCommandMatches: requires ASCII commands for the same reason, and no blank catalog entry, because the source reads the first word of each.
- Wrapping.WrapTableLine: requires a positive width for a line with visible characters; at width 0 the source's hyphen loop makes no progress on one (`WrappingLaws.ProgressIffWidth`), and negative widths index out of range.
- Wrapping.WrapAllLines: the same for each of its lines.
- Wrapping.PrettyWrapTableCell: the same on the hyphen path; whether a value wraps at hyphens (regular expressions for identifiers) is a parameter, and so is the test for identifier-like column names in `ColumnWidths`.
- TableText.WriteTable: write errors are not part of this model; the writer appends to a text.
- TableText.WriteTable: widths are not negative, as every caller's are.
- Versions.VersionLess: how `fmt.Sscanf` reads a number from one part is a parameter, so the order holds for any reading.
- Placement.ParsePlacementAllocations: the class named in a conflict error depends on the map order and is left out of the error; error texts are reduced to their kinds.
- ParityOracle.CanonicalParityJSON: the JSON decoder is a parameter, which stands for reading the first value of a text; values are those it gives, with numbers as their literal text.
- SshOptions.ServerSSHInvocation.ParseServerSSHPassThrough: only the fields that the parser writes are modelled; lower-casing is modelled as far as comparison with ASCII words can tell.
- SshOptions.ServerSSHInvocation.ApplyServerSSHOption: for a key that is not ASCII, the key named in the unknown-option error may differ in case from the source's.
- CommandTree.NewRootCommand: the root's version text and flag-error function are left out.
- CommandTree.Tree.ConfigureLeaf: flags and argument checks are left out, and help functions are reduced to the path they are for.
- CleanupLedger.ServerLifecycle.CleanupAll: what a command comes to is a parameter, and so is whether its output looks as if the resource was already gone; errors are reduced to the names of the failed steps.
- The in-place unset loop of resource provider allocations and the clean-up ledgers of the other suites, which would only repeat easier copies of what is here.
- Requests, authentication, the service catalog, SSH sessions, host keys and file access: network and file I/O.
- Colours, themes, progress and the rendering libraries of the enhanced tables.
- Regular-expression normalisation of parity output, and the long tables of flags and command paths.
