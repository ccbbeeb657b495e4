# gotree: tip renaming, tip index and SVG file naming, in Dafny

This project models three pieces of gotree, a command-line toolkit for
phylogenetic trees:

- the **tip name index** (`tree/nodeindex.go`). It is built once from a
  tree's node list and maps every tip name to its tip. A tip is a node with
  exactly one neighbour. When two tips share a name, the later one in node
  order wins.
- the **`rename` command's core** (`cmd/rename.go`):
  - `readMapFile` parses a two-column, tab-separated map file. It stops at
    the first line that does not split into exactly two fields, with an error
    naming the 1-based line number. A later line overrides an earlier one
    with the same key.
  - `renameTree` snapshots the tip index and then renames the tip of every
    key, visiting the keys in map iteration order. It stops at the first key
    that names no tip. On success it rebuilds the tree's caches in a fixed
    order: `UpdateTipIndex`, then `ClearBitSets`, then `UpdateBitSet`, except
    that an error from `ClearBitSets` is returned before `UpdateBitSet` runs.
- the **`svg` command's per-tree loop** (`cmd/svg.go`):
  - the first tree goes to the output file as named;
  - tree `n > 0` goes to the name less a `.svg` extension, then `_`, `n` as
    `%03d`, then `.svg`;
  - the layout and the canvas come from the `--radial` and `--circular`
    flags, with a 30-pixel margin all round.

The modules are:

- `Wrappers`: `Option`, standing for Go's `(value, ok)` pairs and for `error` results.
- `Format`: `%d` and `%03d` on non-negative integers.
- `Strings`: `strings.Split` on one separator character, with its inverse `Join`.
- `Seqs`: generic sequence facts.
- `Trees`: the tree collaborator as a class over its node array, and the `NodeIndex` class.
- `Rename`: `readMapFile` and `renameTree`.
- `Svg`: `filepath.Ext`, the output names, the layout and canvas choice, and the loop over the trees.

Go's map iteration order is unspecified. `Rename.RenameTree` therefore takes
an `order` that enumerates the map's keys, each exactly once, and every
property is proved for each such order. The renaming itself is specified
twice:
- `ApplyRenames`: the loop as written, one key after another;
- `RenamedTips`: one simultaneous update in which every key's tip, found in
  the original index, takes its new name.

A lemma proves that the two agree for every order whose keys all name
tips. So when every key names a tip, the result does not depend on the
iteration order, and renames never chain: with `a -> b` and `b -> c`, the
tip that was `a` ends as `b`. When some key names no tip, the order decides
which keys were renamed before the error and which unknown key the error
names.

Two facts about the code that the model keeps:
- On a malformed line, `readMapFile` returns the map built from the lines before it together with the error (cmd/rename.go:46).
- When a key names no tip, `renameTree` returns at once (cmd/rename.go:69). Renames done before stay, and none of the cache calls at cmd/rename.go:74-79 is made.

## Model

| member | source | states |
|---|---|---|
| Format.Decimal | cmd/rename.go:46 | `%d` yields at least one decimal digit, and a leading `0` only for zero |
| Format.DecimalRoundTrip | cmd/rename.go:46 | reading back the digits of `%d` gives the number itself |
| Format.DecimalInjective | cmd/rename.go:46 | different numbers print differently |
| Format.Pad3Spec | cmd/svg.go:32 | `%03d` yields digits with the number's value, exactly three unless the number needs more, made of zeros followed by `%d` of the number |
| Format.Pad3 | cmd/svg.go:32 | `%03d` is at least three characters wide; what it holds is stated in `Pad3Spec` |
| Format.Pad3Injective | cmd/svg.go:32 | different tree numbers get different padded counters |
| Strings.Split | cmd/rename.go:44 | `strings.Split` on one character gives one more field than there are separators, and no field holds the separator |
| Strings.SplitJoin | cmd/rename.go:44 | joining the fields with the separator gives back the line |
| Strings.JoinSplit | cmd/rename.go:44 | splitting a join of separator-free fields gives back the fields |
| Trees.Tree.SetName | cmd/rename.go:71 | renaming a node changes that node's name and nothing else in the node list |
| Trees.Tree.UpdateTipIndex | cmd/rename.go:74 | the call is recorded and the node list is untouched |
| Trees.Tree.ClearBitSets | cmd/rename.go:75-78 | the call is recorded, the node list is untouched, and its error outcome is passed back |
| Trees.Tree.UpdateBitSet | cmd/rename.go:79 | the call is recorded and the node list is untouched |
| Trees.TipIndex | tree/nodeindex.go:19-24 | every entry maps a name to the position of a tip that carries that name |
| Trees.TipIndexKeys | tree/nodeindex.go:19-24 | a name is a key exactly when some tip carries it, so names only internal nodes carry are not keys |
| Trees.TipIndexLastWins | tree/nodeindex.go:19-24 | among tips sharing a name, the index holds the last one in node order |
| Trees.NodeIndex.constructor | tree/nodeindex.go:11-27 | the build loop leaves exactly the tip index of the node list at build time, and does not change the tree |
| Trees.NodeIndex.GetNode | tree/nodeindex.go:32-35 | the lookup succeeds exactly when a tip of the indexed tree carries the name; it then yields a tip with that name, the last one in node order |
| Rename.MalformedLines | cmd/rename.go:44-45 | a line is accepted exactly when it holds one tab, so an empty line is rejected |
| Rename.WellFormedLine | cmd/rename.go:44-48 | an accepted line is its key, a tab and its value, and neither part holds a tab |
| Rename.FirstMalformed | cmd/rename.go:43-47 | the position where reading stops: all earlier lines are accepted and the line there is not |
| Rename.FirstMalformedUnique | cmd/rename.go:43-47 | any position with that property is that stopping position |
| Rename.FormatErrorMessage | cmd/rename.go:46 | the message is the fixed text followed by decimal digits only |
| Rename.FormatErrorReadBack | cmd/rename.go:46 | the line number can be read back from the digits after the fixed text |
| Rename.FormatErrorNamesLine | cmd/rename.go:46 | two error messages are equal only when they name the same line |
| Rename.ReadMapFile | cmd/rename.go:32-58 | the map holds the lines before the first malformed one, inserted in order; the error names the 1-based number of that line, and there is no error when every line is accepted |
| Rename.MapOfKeys | cmd/rename.go:48 | the map's keys are exactly the first fields of the lines read |
| Rename.MapOfLastWins | cmd/rename.go:48 | a key's value is the second field of the last line with that key |
| Rename.ReadIgnoresLaterLines | cmd/rename.go:43-47 | inputs that agree up to and including the first malformed line stop at the same line with the same partial map |
| Rename.NotFoundMessage | cmd/rename.go:69 | the message is the key between two fixed texts, at a fixed place |
| Rename.NotFoundNamesKey | cmd/rename.go:69 | two not-found errors are equal only when they name the same key |
| Rename.FirstUnresolved | cmd/rename.go:66-70 | the position where renaming stops: every earlier key names a tip and the key there does not |
| Rename.FirstUnresolvedUnique | cmd/rename.go:66-70 | any position with that property is that stopping position |
| Rename.ApplyRenames | cmd/rename.go:66-72 | renaming keeps the number of nodes and every node's neighbour count |
| Rename.RenamedTipsSpec | cmd/rename.go:64-72 | the node count and neighbour counts are kept; each key's tip takes the key's new name; a node that is no key's tip is unchanged |
| Rename.RenamedTipsOrderFree | cmd/rename.go:66 | the simultaneous update depends only on which keys are present, not on their order |
| Rename.ApplyRenamesAgree | cmd/rename.go:65-72 | when the index resolves every key, renaming key by key agrees with the simultaneous update at every node |
| Rename.ApplyRenamesIsRenamedTips | cmd/rename.go:65-72 | under the same conditions, the nodes after the loop equal the simultaneous update |
| Rename.NoChaining | cmd/rename.go:65-72 | for the key-by-key loop, with `a -> b` in the table, the original `a` tip ends as `b` whichever of `a` and `b` is visited first, and the original `b` tip gets its own new name |
| Rename.Reconcile | cmd/rename.go:73-80 | the caches are rebuilt in a fixed order (`UpdateTipIndex`, `ClearBitSets`, then `UpdateBitSet` only when clearing succeeded); `ClearBitSets`'s error is the result; the nodes are untouched |
| Rename.RenameTips | cmd/rename.go:65-72 | the loop renames key by key through the snapshot index, up to the first key that names no tip; the error names that key, and there is none when every key resolves |
| Rename.RenameTree | cmd/rename.go:64-81 | the node array is the same. The nodes are the simultaneous update for the keys before the first unresolved key. If some key does not resolve, the error names it and the caches are not touched. If every key resolves, the caches are rebuilt in order and the result is `ClearBitSets`'s error |
| Svg.Ext | cmd/svg.go:28 | `filepath.Ext` is no longer than the path and, when not empty, starts with `.`; its full statement is `ExtSpec` |
| Svg.ExtScan | cmd/svg.go:28 | the backward scan behind `Ext` returns nothing longer than the path, starting with `.` when not empty; its full statement is `ExtScanSpec` |
| Svg.ExtSpec | cmd/svg.go:28 | `filepath.Ext` gives a suffix of the path that is empty or starts with `.` and holds no other `.` and no `/`; it is empty only when the final path element has no `.` |
| Svg.ExtScanSpec | cmd/svg.go:28 | the same for the backward scan from any position past which no `.` or `/` occurs |
| Svg.ExtOfSvg | cmd/svg.go:28-29 | a name ending in `.svg` has the extension `.svg` |
| Svg.Stem | cmd/svg.go:29-31 | the name less its extension when that extension is `.svg`, and the name itself otherwise |
| Svg.OutputName | cmd/svg.go:26-33 | the first tree keeps the output name; a later tree's name is the stem's length plus the counter's plus five characters long |
| Svg.LaterNamesAreSvg | cmd/svg.go:32 | every file after the first has the extension `.svg` |
| Svg.SvgExtensionReplaced | cmd/svg.go:28-32 | for `base.svg`, tree `n > 0` goes to `base_` + `%03d` of `n` + `.svg` |
| Svg.OtherExtensionKept | cmd/svg.go:28-32 | any other extension, or none, stays in front of `_` and the counter |
| Svg.CounterReadBack | cmd/svg.go:32 | the tree number can be read back from the digits right after the stem and `_` |
| Svg.OutputNamesDistinct | cmd/svg.go:24-47 | two different trees of one run never get the same file name |
| Svg.ChooseLayout | cmd/svg.go:35-44 | radial when the radial flag is set; otherwise circular when that flag is set; otherwise normal |
| Svg.Min | cmd/svg.go:39 | `min` is at most both arguments and equals one of them |
| Svg.CanvasFor | cmd/svg.go:35-44 | every margin is 30; a circular drawing gets a square whose side is the smaller of the requested width and height; other layouts get the requested width and height |
| Svg.PlanDrawings | cmd/svg.go:24-47 | one drawing per tree, in order; tree `i` goes to the file named for counter `i`, with the chosen layout and its canvas; no two trees share a file |

## Left out

- Command wiring: Cobra flags, argument handling and panics on errors are not modelled; the missing-map-file check at cmd/rename.go:98 is among them.
- File I/O in `readMapFile`: opening and closing the file and their errors are left out, so the function takes the file's lines as a sequence. A read error of `utils.Readln` is treated like the end of input, which is how the loop treats it. The body of `Readln` is not part of this model.
- Tree input and output are left out, because they are outside the core: `utils.ReadRefTree`, `Newick()`, `os.Create` and `WriteString`.
- The bodies of `UpdateTipIndex`, `ClearBitSets` and `UpdateBitSet` belong to the tree package, which is not part of this model. Each call is recorded in a ghost trace. The error `ClearBitSets` would return is a parameter (`clearErr`).
- Go map iteration order is unspecified. It is an `order` parameter that enumerates the map's keys, each exactly once.
- Node identity is a node's position in the tree's node list, not a pointer. A node is its name and its neighbour count; edges and other node data are not modelled.
- `draw.NewSvgTreeDrawer`, the layouts' `DrawTree`, `openWriteFile` and `f.Close` are left out, because they draw and write files. The model records for each tree the file, the layout and the canvas passed to the drawer. The branch-length and label flags passed to the layouts are left out.
- `readTrees` and its channel are left out because they are concurrency and I/O. Trees arrive in order, and only their count matters to the file names.
- `filepath.Ext` is modelled with `/` as the only separator, as on Unix-like systems.
- Svg.OutputName: treats a `%` in the output name as an ordinary character. The code instead places the name into the `fmt.Sprintf` format string, where a `%` would start a verb. Modelling Go's format-verb parsing is beyond this model.
- Svg.OutputName: its own ensures state only the first tree's name and a later name's length. The full shape of a later name is stated in `SvgExtensionReplaced`, `OtherExtensionKept`, `LaterNamesAreSvg` and `CounterReadBack`.
- Rename.ApplyRenames: a key that the index or the table lacks changes nothing in the function. Its property is stated only for the keys the loop reaches, because the loop stops at the first key that names no tip.
- Format.Pad3: its own ensures state only the width. The digits, their value and the zero padding are stated in `Pad3Spec`, which keeps the function's contract cheap where it is used.
- Svg.Ext: its own ensures state only the length and the leading `.`. The full characterisation is `ExtSpec`.
- Svg.ExtScan: its own ensures state only the length and the leading `.`. The full characterisation is `ExtScanSpec`.
