# Grid image cropping: a verified model of the selection core

This project models the selection core of an interactive tool that lays a
fixed 6 x 6 grid over each image of a folder. The operator arms a label
(`healthy` or `damaged`) with a key and clicks cells to select, deselect or
relabel them. A save key writes every selected cell as a crop into its label's
folder and moves on to the next image. A skip key moves on without saving,
and an exit key saves and ends the run.

The model has five modules:

- `Wrappers` (`wrappers.dfy`): `Option`.
- `Geometry` (`geometry.dfy`): the cell rectangles, which come from truncating
  division of the image size by the grid. It also has the first-match lookup
  of the cell under a point, with inclusive bounds on all four edges. The
  lemmas show that every cell lies inside the image, that the strip the
  truncation cuts off belongs to no cell, that a point of the covered area
  always finds a cell, and that a point strictly inside cell `k` resolves to
  `k` even though neighbouring cells share edges.
- `Selection` (`selection.dfy`): the selection map (cell index to label) and
  the three-way click rule, with its toggle and relabel laws and the per-label
  counts.
- `Export` (`export.dfy`): the crop records of a save (output path
  `<label>/<image>_cell<index>.jpg` and cell rectangle) and the running
  per-label counters. The export loop is proved to count each selected cell
  once under its label, and the output paths of one image are proved pairwise
  distinct. Distinctness rests on a decimal round trip for the index.
- `Session` (`session.dfy`): the tool's four pieces of global state as the
  fields of class `Annotator`, and the click, save, key and per-image handlers
  as its methods. Key decoding covers the low byte of the polled key code. The
  per-image loop is proved against `Replay`, a pure left fold of the inputs,
  and `FirstDecision`, the first key that saves, skips or exits. The run over
  a directory listing includes the extension filter.

Clicks arrive already in original-image coordinates. A mouse tick and a key
tick are separate `Input` values. When the operator gives no key, the poll
returns -1, which is code 255 and is bound to nothing.

Three points of the program's behaviour that the model keeps:

- Cells are compared with inclusive bounds on all four edges, so adjacent
  cells share their edge pixels and the earliest cell in row-major order wins.
- The last row and column are not clamped to the image edge. The strip that
  the truncating division cuts off belongs to no cell.
- `save_selected_cells` returns nothing. The model returns the map of crops
  it writes.

## Model

| member | source | states |
|---|---|---|
| `Geometry.GridCells` | gridImageCrop.py:64-68 | the grid has exactly rows*cols cells |
| `Geometry.CellRect` | gridImageCrop.py:115-118 | the rectangle rebuilt from an index starts at non-negative coordinates and is exactly `w // cols` wide and `h // rows` high; `GridCellsRowMajor` shows it is the drawn cell |
| `Geometry.GridCellsRowMajor` | gridImageCrop.py:64-68 | entry `i*cols+j` is `(j*cw, i*ch, j*cw+cw, i*ch+ch)` with `cw = w // cols`, `ch = h // rows` |
| `Geometry.RowMajorDivMod` | gridImageCrop.py:115-116 | `idx // cols` and `idx % cols` recover the row and column of `idx = i*cols+j` |
| `Geometry.CellInsideImage` | gridImageCrop.py:52-68 | every cell lies in `[0, cols*cw] x [0, rows*ch]`, inside the image, and is non-empty once `w >= cols`, `h >= rows` |
| `Geometry.OutsideCoveredAreaLocatesNothing` | gridImageCrop.py:96-97 | a point beyond `cols*cw` or `rows*ch` (the truncated strip) or outside the image lies in no cell |
| `Geometry.CoveredAreaLocatesSomeCell` | gridImageCrop.py:96-97 | every point of `[0, cols*cw] x [0, rows*ch]` lies in some cell |
| `Geometry.LocateFrom` | gridImageCrop.py:96-97 | the result is the first index, from the start index on, whose rectangle contains the point (inclusive bounds), or none when no later cell contains it |
| `Geometry.LocateIsFirstMatch` | gridImageCrop.py:96-97 | lookup yields `idx` exactly when cell `idx` contains the point and no earlier cell does |
| `Geometry.FindCell` | gridImageCrop.py:96-108 | the scan with early exit returns the first containing cell |
| `Geometry.InteriorPointLocatesCell` | gridImageCrop.py:96-97 | a point strictly inside cell `k` resolves to `k` |
| `Geometry.SharedCornerGoesToFirstCell` | gridImageCrop.py:96-108 | the corner shared by cells 0, 1 and `cols` resolves to 0: first match wins |
| `Selection.Toggle` | gridImageCrop.py:98-107 | absent: set to the armed label; same label: removed; other label: replaced; every other key unchanged |
| `Selection.ToggleTwice` | gridImageCrop.py:98-107 | two clicks with one label restore the map exactly when the cell was absent or had that label; otherwise the cell ends removed |
| `Selection.RelabelLaw` | gridImageCrop.py:98-107 | a click with `a` then with `b != a` leaves the cell labelled `b`, whatever it held |
| `Selection.ToggleSize` | gridImageCrop.py:98-107 | select adds one entry, deselect removes one, relabel keeps the size |
| `Selection.ToggleWithinGrid` | gridImageCrop.py:96-107 | clicks keep every key a valid cell index |
| `Selection.CountLabelsPartition` | gridImageCrop.py:114-123 | the per-label counts of a selection add up to its size |
| `Selection.CellsWithLabelStep` | gridImageCrop.py:114-123 | handling one more entry adds one to its own label's count only |
| `Export.NatToString` | gridImageCrop.py:121 | the decimal text of an index is non-empty, all digits, and has no leading zero: it starts with `0` only for index 0 |
| `Export.ParseNatToString` | gridImageCrop.py:121 | the decimal text of an index reads back as the index |
| `Export.NatToStringInjective` | gridImageCrop.py:121 | distinct indices have distinct decimal texts |
| `Export.CropPathInjective` | gridImageCrop.py:121 | with one label and image name, equal paths mean equal cell indices |
| `Export.CropPathsDistinct` | gridImageCrop.py:121 | two cells of one image never share an output path |
| `Export.Counters.Bump` | gridImageCrop.py:123 | the counter of the saved label grows by one and the other counter is unchanged |
| `Export.ExportedCrops` | gridImageCrop.py:114-121 | one crop per selected cell: path `<label>/<img>_cell<idx>.jpg`, its label, and the rectangle rebuilt from the index |
| `Export.ExportSelections` | gridImageCrop.py:111-123 | the loop over the selection writes exactly `ExportedCrops` and adds to each label's counter its number of selected cells |
| `Export.ExportTotals` | gridImageCrop.py:114-123 | a save raises the counters in total by the number of selected cells |
| `Export.ExportPathsDistinct` | gridImageCrop.py:114-122 | the files written for one image are pairwise distinct, so there are as many as selected cells |
| `Export.ScenarioExportFiles` | gridImageCrop.py:114-122 | saving `{3: healthy, 4: damaged}` of `img` writes `healthy/img_cell3.jpg` and `damaged/img_cell4.jpg` |
| `Export.ScenarioExportCounts` | gridImageCrop.py:123 | that save adds one to each counter |
| `Session.KeyCode` | gridImageCrop.py:151 | the key code is the unique value in `[0, 256)` congruent to the raw code, as `& 0xFF` gives |
| `Session.DecodeKey` | gridImageCrop.py:153-172 | `h`, `d`, `s`, `q`, `x` map to arm healthy, arm damaged, save, skip, exit, each in both directions |
| `Session.DecodeKeyIgnoresHighBits` | gridImageCrop.py:151 | codes differing by a multiple of 256 mean the same command |
| `Session.NoKeyIsNoCommand` | gridImageCrop.py:151-172 | a poll without a key (-1) is code 255 and does nothing |
| `Session.ApplyInput` | gridImageCrop.py:90-108 | one input arms exactly the label an `h` or `d` key names and otherwise keeps the armed label; only a left press with a label armed can change the selection |
| `Session.Replay` | gridImageCrop.py:148-158 | the view after one image's inputs, from nothing selected and nothing armed; its properties are stated by `ReplayArmedIffArmKey`, `ReplayWithinGrid` and `UnarmedClicksSelectNothing`, and `ProcessImage` is proved against it |
| `Session.ReplayArmedIffArmKey` | gridImageCrop.py:153-158 | after the inputs a label is armed exactly when one of them was an `h` or `d` key |
| `Session.FirstDecision` | gridImageCrop.py:148-172 | the image is left at the first key that saves, skips or exits |
| `Session.ReplayWithinGrid` | gridImageCrop.py:90-108 | any sequence of inputs leaves only valid cell indices selected |
| `Session.UnarmedClicksSelectNothing` | gridImageCrop.py:92 | with no label key pressed, no click selects anything |
| `Session.ScenarioSelectThenDeselect` | gridImageCrop.py:90-108 | arm healthy, click cell 0: selected; click it again: empty selection |
| `Session.ScenarioRelabel` | gridImageCrop.py:98-107 | arm healthy, click cell 5, arm damaged, click cell 5: `{5: damaged}` |
| `Session.Lower` | gridImageCrop.py:126 | the lower-cased name has the same length and no ASCII capital; each capital becomes its small letter and every other character is kept |
| `Session.LowerIdempotent` | gridImageCrop.py:126 | lower-casing twice is lower-casing once |
| `Session.IsImageFile` | gridImageCrop.py:126 | an accepted name has at least four characters; the accepted suffixes and the case rule are stated by `ImageSuffixesAccepted` and `IsImageFileIgnoresCase` |
| `Session.ImageSuffixesAccepted` | gridImageCrop.py:126 | names ending in `.jpg`, `.jpeg` or `.png` are accepted, in small or in capital letters |
| `Session.IsImageFileIgnoresCase` | gridImageCrop.py:126 | the extension filter accepts a name exactly when it accepts its lower-cased form |
| `Session.ImageFiles` | gridImageCrop.py:126 | the filtered listing is no longer than the listing; it holds exactly the image entries in listing order, repeats kept, as `ImageFilesMembership`, `ImageFilesAppend` and `ImageFilesSingleton` state |
| `Session.ImageFilesMembership` | gridImageCrop.py:126 | an entry is kept exactly when it is listed and its name ends in `.jpg`, `.jpeg` or `.png`, ignoring case |
| `Session.ImageFilesSingleton` | gridImageCrop.py:126 | a one-entry listing keeps its entry exactly when it is an image |
| `Session.ImageFilesAppend` | gridImageCrop.py:126 | filtering a listing split in two filters each part and concatenates them, so listing order and repeats are kept |
| `Session.Annotator.constructor` | gridImageCrop.py:29-32 | empty selection, no armed label, both counters zero, no cells |
| `Session.Annotator.BuildCells` | gridImageCrop.py:51-68 | the cell list is replaced by the grid of the new size; nothing else changes |
| `Session.Annotator.Click` | gridImageCrop.py:90-108 | only an armed left press on some cell changes the selection, by the click rule on the first cell hit; otherwise nothing changes |
| `Session.Annotator.Save` | gridImageCrop.py:111-123 | writes `ExportedCrops` of the selection, bumps each counter by its label's count, leaves the selection unchanged |
| `Session.Annotator.StartImage` | gridImageCrop.py:137-138 | each image starts with an empty selection and no armed label; the counters carry over |
| `Session.Annotator.HandleKey` | gridImageCrop.py:151-172 | `h`/`d` change only the armed label; `s` exports and moves on; `q` moves on with the counters untouched; `x` exports and exits; any other code changes nothing |
| `Session.Annotator.ProcessImage` | gridImageCrop.py:132-172 | the outcome is set by the first deciding key; the state at that point is the replay of the earlier inputs; save and exit export that selection and skip does not |
| `Session.Annotator.ShowEntry` | gridImageCrop.py:132-172 | one listed image is left as its first deciding key says, with the selection and armed label replayed from the inputs before that key; a save or an exit raises each counter by its label's count in that selection, and a skip or an unfinished image leaves the counters unchanged |
| `Session.Annotator.Run` | gridImageCrop.py:132-172 | the image entries are shown in listing order; `outcomes[k]` is set by the first deciding key of image `k`; every image before the last one shown was saved or skipped; the run stops early only on an exit or an unfinished image; the counters never decrease |

## Left out

- Display scaling, meaning the scale factor and the display-to-original
  conversions: these are floating-point computations. Clicks enter the model
  in original-image coordinates.
- All drawing, the window and monitor size, and the instructions header:
  these only produce pixels.
- Reading and writing images, creating the session folders, the timestamp,
  and the pixel slicing of a crop: these are file-system and library calls.
  A crop is modelled by its path, its label and its rectangle.
- The order of the directory listing: the entries are given as a sequence.
- Splitting off a file's extension: each entry carries its base name as
  given by the path library.
- Console messages: these are logging only.
- `Session.Lower`: covers ASCII letters only, not full Unicode case mapping.
- `Session.Annotator.ProcessImage`: when the inputs run out before a
  deciding key, the image is reported `Unfinished`. The program itself keeps
  polling forever.
- `Session.Annotator.ShowEntry`: does not state the crops written, only how
  many each label gains. The crop map is stated by `ProcessImage`, which it
  calls.
- `Session.Annotator.Run`: states how each shown image was left and that
  the counters never decrease, but not the exact counter values. The
  per-image effects are stated by `ProcessImage`. The run stops at an
  `Unfinished` image, where the program would wait.
- An unreadable image (the image library returns nothing) is not modelled.
  The program fails on it.
