# Grid canvas and sentence store, modelled in Dafny

This project models the two state-handling cores of a small form-layout tool built with
PySide6.

- **The drawing canvas** (`grid_canvas.py`, and the parts of `drawing_tab.py` that change
  canvas state):
  - The user picks a field from a list.
  - The user drags out a rectangle, whose corners are snapped to a square grid of `g`
    pixels.
  - The canvas commits the rectangle only if it lies below the three reserved ("frozen")
    top rows, has non-zero size and shares no grid cell with the rectangles already there.
  - The canvas keeps three pieces of state: the list of `(rect, colour, field)` entries,
    the set of occupied `(column, row)` cells, and the set of fields that have a rectangle.
  - Deleting a field rebuilds the list and the occupied cells.
  - Saved rectangles can be preloaded with no check at all.
- **The sentence store** (`sentence_manager.py`):
  - The data file is a list of lines: an index line, a tab-separated header, then one
    tab-separated row per sentence.
  - Loading pads short rows and cuts long ones to the header's width.
  - Saving writes every value in header order, with each `\n` replaced by the marker
    `3==D`.
  - A cursor chooses the current sentence and is kept inside the list.

## Modules

- `Options` (`options.dfy`): the `Option` type.
- `Text` (`text.dfy`): the Python string operations the core uses. These are `split` and
  `join` on one character, `replace`, `strip` and `rstrip("\n\r")`, `isdigit`, `int()` and
  `str()`.
- `QtGeometry` (`qt_geometry.dfy`): `QPoint` and `QRect`.
  - A `QRect` keeps two inclusive corners, so `width() == x2 - x1 + 1` and
    `right() == x2`.
  - `normalized()` follows Qt 6: when `x2 < x1` the new corners are `x2 + 1` and `x1 - 1`,
    and likewise for `y`.
  - PySide makes a `QPoint` false when it is the null point `(0, 0)`. `PointSet` models
    that truthiness.
- `Canvas` (`grid_canvas.dfy`): snapping, the cell cover, the frozen test, and the
  `GridCanvas` class.
  - It has these fields: `rects`, `occupied`, `usedFields`, `startPoint`, `endPoint`,
    `activeField` and `notices`.
  - `Valid()` states the canvas invariant:
    - `occupied` is the union of the rectangles' cells;
    - `usedFields` is the set of their fields.
  - `DraftOnGrid()` states that draft corners lie on grid lines.
  - The mouse handlers are `BeginCreate`, `UpdateCreate` and `EndCreate`.
  - `notices` logs every callback call, as `Notice(field, remove)`.
- `Sentences` (`sentence_manager.dfy`):
  - `Dict` is a Python dict: its keys in insertion order, plus a map.
  - `Sentence` is a class holding one `Dict`. `Sentence.Get` is `Dict.Get` and
    `Sentence.ToList` is `Dict.Values`.
  - `SentenceManager` is a class.
  - `Parse` and `Serialize` describe the file at the level of its lines.
- `Drawing` (`drawing_tab.dfy`):
  - The field list is modelled as `ListItem(text, key)` entries. The key is the field
    stored under `Qt.UserRole`.
  - The double-click guard.
  - Rectangle preloading.
  - The display name, which is `field.replace("3==D", " ").strip()`.

## Model

| member | source | states |
|---|---|---|
| QtGeometry.Rect.Normalized | grid_canvas.py:74 | the normalized rectangle has non-negative width and height of the same magnitude; an axis that already has non-negative size is left as it is |
| Canvas.SnapToGrid | grid_canvas.py:42-45 | each snapped coordinate is a multiple of `g`, at or below the input and less than `g` below it |
| Canvas.SnapCoordUnique | grid_canvas.py:43-44 | the snapped coordinate is the only multiple of `g` in `(v - g, v]` |
| Canvas.SnapIdempotent | grid_canvas.py:42-45 | snapping a snapped point changes nothing |
| Canvas.CellsInRect | grid_canvas.py:47-56 | the nested loops collect exactly columns `left // g .. (right - 1) // g` times rows `top // g .. (bottom - 1) // g` |
| Canvas.ForwardDraft | grid_canvas.py:47-56 | for snapped corners dragged right and down, the rectangle is `QRect(start, end)` itself and covers exactly columns `x1/g .. x2/g - 1` and rows `y1/g .. y2/g - 1` |
| Canvas.OneUnitWide | grid_canvas.py:47-56 | a snapped drag one grid unit wide covers exactly the cells of column `start.x / g` in rows `start.y / g` up to `end.y / g`: no cell of another column, the top cell whenever the drag has height, and nothing when it has none |
| Canvas.SnappedDraft | grid_canvas.py:74-92 | for `g >= 2` and snapped corners dragged in any direction, the normalized rectangle has positive size, covers the cells between the corners, and is frozen exactly when its upper corner is above row 3 |
| Canvas.ClickCoversNothing | grid_canvas.py:74-92 | a click without a drag gives a 1x1 rectangle with no cells, so the overlap test passes and it is committed exactly when it is below the frozen band |
| Canvas.IsInFrozenArea | grid_canvas.py:144-147 | a rectangle is frozen exactly when its top edge is above `3 * g`; the bottom edge plays no part |
| Canvas.NamesMembers | grid_canvas.py:22 | a field is in the name set exactly when some rectangle carries it |
| Canvas.AllCellsConcat | grid_canvas.py:14-15 | the cells and the names of two concatenated lists are the unions of each list's cells and names |
| Canvas.DisjointAppend | grid_canvas.py:92-96 | appending keeps the rectangles pairwise cell-disjoint exactly when the new rectangle avoids every occupied cell |
| Canvas.WithoutFieldMembers | grid_canvas.py:31-33 | after a delete, a rectangle remains exactly when it was there before and belongs to another field |
| Canvas.WithoutFieldNames | grid_canvas.py:31-38 | a delete removes the deleted name from the name set and keeps every other name |
| Canvas.WithoutFieldCells | grid_canvas.py:34-36 | a delete can only shrink the occupied cells |
| Canvas.WithoutAbsentField | grid_canvas.py:31-33 | deleting a field that has no rectangle leaves the list unchanged |
| Canvas.WithoutFieldDisjoint | grid_canvas.py:28-36 | a delete keeps pairwise disjoint rectangles disjoint |
| Canvas.KeepStep | grid_canvas.py:31-34 | one pass of the delete loop keeps rectangle `i` exactly when it belongs to another field, and the cells stay the union of the kept ones |
| Canvas.KeepOtherFields | grid_canvas.py:29-34 | the delete loop returns the other fields' rectangles in their original order, with the union of their cells |
| Canvas.GridCanvas.constructor | grid_canvas.py:7-23 | a new canvas has no rectangles, cells, used fields, draft or active field, and its invariant holds |
| Canvas.GridCanvas.SetActiveField | grid_canvas.py:25-26 | the given field becomes the active field |
| Canvas.GridCanvas.BeginCreate | grid_canvas.py:58-62 | with an active field and the left button, both draft corners become the snapped point; otherwise the draft stays as it was |
| Canvas.GridCanvas.UpdateCreate | grid_canvas.py:64-67 | a started draft moves its end corner to the snapped point; otherwise nothing changes |
| Canvas.GridCanvas.AddRect | grid_canvas.py:93-97 | committing a rectangle appends it in the standard colour, adds its cells and its field, issues one callback and keeps the invariant; disjointness is kept when its cells avoid the occupied ones |
| Canvas.GridCanvas.EndCreate | grid_canvas.py:69-102 | without an active field or a full draft, nothing changes; otherwise the draft is cleared. An admissible rectangle is appended once for the active field, with its cells and its field added, one callback issued and the active field cleared. A frozen, empty or overlapping rectangle changes nothing else. The invariant and pairwise disjointness are kept, and a committed rectangle is never frozen |
| Canvas.GridCanvas.ClearRectByField | grid_canvas.py:28-40 | keeps exactly the other fields' rectangles in order and recomputes the occupied cells from them. The name is dropped, with one `remove=True` callback, only when it was used. The invariant and pairwise disjointness are kept |
| Sentences.Dict.Put | sentence_manager.py:9-10 | after `set(f, v)`, `get(f)` is `v` and every other field reads as before; a new field goes to the end of the key order |
| Sentences.PutWellFormed | sentence_manager.py:9-10 | assignment keeps keys distinct and equal to the mapped names |
| Sentences.ZipWellFormed | sentence_manager.py:3-4 | the dict built from a zip has distinct keys that are exactly its mapped names |
| Sentences.ZipAbsent | sentence_manager.py:3-7 | a field that is not among the zipped names reads as `""` |
| Sentences.ZipLast | sentence_manager.py:3-4 | a repeated name reads as the value of its last occurrence; names or values beyond the shorter list are dropped |
| Sentences.ZipDistinct | sentence_manager.py:3-13 | with distinct names and enough values, the keys are the names in order and `to_list()` returns the first `len(names)` values |
| Sentences.Sentence.constructor | sentence_manager.py:3-4 | a new sentence holds the zip of names and values |
| Sentences.Sentence.Get | sentence_manager.py:6-7 | a field the sentence does not hold reads as `""`, and a held field reads as the `to_list` entry at its place; `ZipAbsent` and `ZipLast` give what a new sentence reads, and `Dict.Put` gives read-after-set |
| Sentences.Sentence.Set | sentence_manager.py:9-10 | updates that sentence's own dict in place |
| Sentences.Sentence.ToList | sentence_manager.py:12-13 | one value per field, in insertion order, each the field's `get`; by `ZipDistinct` a sentence built from distinct names lists exactly its values in order, and by `Dict.Put` a set keeps an old field's place and puts a new one last |
| Sentences.Fit | sentence_manager.py:41-44 | a row is padded with `""` or cut to exactly the header's width and keeps its own values where it has them |
| Sentences.PadRow | sentence_manager.py:40-44 | the padding branch of the loop computes `Fit` |
| Sentences.NewRow | sentence_manager.py:39-45 | one data line becomes a new sentence holding its fitted cells under the header |
| Sentences.ParseIndex | sentence_manager.py:47 | the index is the line's value when it is all digits, and 0 otherwise |
| Sentences.Parse | sentence_manager.py:20-47 | fewer than two lines give no fields, no sentences and index 0. Otherwise the header is non-empty, there is one sentence per later line, and the index is not negative |
| Sentences.ParsedRow | sentence_manager.py:35-45 | under a header with no repeated name, every loaded sentence has the header as its keys and the line's padded or cut cells as its values |
| Sentences.SentenceManager.constructor | sentence_manager.py:15-18 | a new manager has no sentences, no fields and index 0 |
| Sentences.BuildRows | sentence_manager.py:38-45 | the data-line loop makes one new sentence per line, holding that line's record, with no object used twice |
| Sentences.AppendRow | sentence_manager.py:39-45 | one pass of that loop appends a new sentence for line `k` and keeps the earlier ones as they were |
| Sentences.SentenceManager.LoadFromLines | sentence_manager.py:20-49 | the state becomes what `Parse` gives for the read lines and the path is remembered. Each sentence is a new object, different from every other |
| Sentences.SentenceManager.SaveLines | sentence_manager.py:51-67 | with no path and none loaded, there is nowhere to save. Otherwise the target is the given path or the last loaded one, and the chunks are the index line, the header line and one escaped row per sentence in header order, each followed by a newline |
| Sentences.Escape | sentence_manager.py:65 | every `\n` of the value becomes the marker, so an escaped value holds no `\n`; other characters, `\r` included, are kept |
| Sentences.EscapeWithoutNewline | sentence_manager.py:64-65 | a value without `\n` is saved unchanged |
| Sentences.LineIsPlain | sentence_manager.py:59-67 | no saved line holds a newline or carriage return, so each reads back as one line |
| Sentences.RowRoundTrip | sentence_manager.py:40-45 | a saved row, split and zipped under the same header, reads every header field as its escaped value and every other name as `""` |
| Sentences.SaveLoadRoundTrip | sentence_manager.py:26-47 | loading what was saved restores the index, the header and the number of sentences, and each field of each sentence reads as its escaped value. This holds for a non-empty header whose names hold no tab, `\n` or `\r`, and values with no tab or `\r` |
| Sentences.Clamp | sentence_manager.py:74-79 | the clamped index is in range, unchanged when already in range, the last index when too large and 0 when negative |
| Sentences.SentenceManager.Current | sentence_manager.py:69-80 | returns none exactly when there are no sentences; otherwise it clamps the stored index in place and returns the sentence object at it |
| Sentences.NextIndex | sentence_manager.py:84-85 | the index moves one forward only before the last sentence, and an in-range index stays in range |
| Sentences.SentenceManager.Next | sentence_manager.py:82-88 | the stored index becomes `NextIndex` of the old one |
| Sentences.PreviousIndex | sentence_manager.py:92-93 | the index moves one back only when positive, and a non-negative index stays non-negative |
| Sentences.SentenceManager.Previous | sentence_manager.py:90-95 | the stored index becomes `PreviousIndex` of the old one |
| Sentences.NavigationInverse | sentence_manager.py:82-95 | inside the list, `previous()` undoes `next()` and `next()` undoes `previous()` |
| Text.SplitJoin | sentence_manager.py:35 | splitting a tab-join gives back the pieces when none holds a tab |
| Text.JoinSplit | sentence_manager.py:60 | joining what was split gives back the line |
| Text.StripLineEnd | sentence_manager.py:26 | the read line is a prefix of the raw line, does not end in a newline or carriage return, and everything dropped is a newline or carriage return |
| Text.NatToStringRoundTrip | sentence_manager.py:47-59 | the written index is all digits and reads back as the same number |
| Text.ReplaceAllRemoves | drawing_tab.py:91 | replacing the marker by a space leaves no marker |
| Text.StripTrims | drawing_tab.py:91 | a stripped string has no whitespace at either end, and a string without it is kept |
| Text.StripKeepsNoOccurrence | drawing_tab.py:91 | stripping cannot create a marker |
| Drawing.DisplayName | drawing_tab.py:91 | the shown text never holds the marker and never starts or ends with whitespace; `DisplayNameClean` adds that a clean field is shown as it is |
| Drawing.DisplayNameClean | drawing_tab.py:90-91 | a display name never holds the marker or edge whitespace, and a field with neither is shown unchanged |
| Drawing.ListItems | drawing_tab.py:90-94 | one item per field in order, showing its display name and storing the original field |
| Drawing.AppendItem | drawing_tab.py:91-94 | one pass of the loop appends the item for the field after those already built, showing its display name and storing the field |
| Drawing.DrawingTab.constructor | drawing_tab.py:14-23 | a new tab has a new empty canvas and the list filled as above |
| Drawing.DrawingTab.OnItemDoubleClicked | drawing_tab.py:112-116 | the item's stored field becomes active unless it already has a rectangle, in which case the active field is unchanged |
| Drawing.DrawingTab.PreloadNext | drawing_tab.py:160-165 | one pass of the loop adds saved pair `i` as the next entry after those already loaded, with its mark, and keeps the invariant |
| Drawing.DrawingTab.LoadSavedRects | drawing_tab.py:159-166 | every saved pair is appended in input order after the existing rectangles. The occupied cells and used fields grow by exactly the loaded ones, one mark is issued per pair, and the invariant is kept. An empty list changes nothing |
| Drawing.TaggedEntries | drawing_tab.py:160-162 | entry `i` of the preloaded list is pair `i` with the standard colour, marked with `remove=False` |
| Drawing.LoadSkipsOverlapGuard | drawing_tab.py:159-164 | preloading checks nothing: the same rectangle saved under two fields is loaded twice, and the two share a cell |

## Left out

- Painting (`paintEvent`, the grid, the rectangles and the cursor text) and `update()` calls:
  rendering only.
- The grid size: the source derives it from the screen's DPI in floating point. Here it is
  a positive integer parameter `g`.
- Mouse positions: `QPointF.toPoint()` rounding is not modelled. The handlers take the
  integer point.
- Coordinates: Qt stores them in 32 bits; here they are unbounded.
- `field_selected_callback` and `mark_field_used`: their effect on the list colours is not
  modelled. Each call is recorded in the canvas's `notices`.
- `show_context_menu`, `toggle_field_popup`, `handle_done_clicked`, `import_excel_file` and
  the widget layout of `drawing_tab.py`: these are UI, HTTP and file glue. The list rebuild
  in `import_excel_file` uses the same display rule as `ListItems`.
- `popup.hide()` in `on_item_double_clicked`: UI only.
- File access in `load_from_txt` and `save_to_txt`:
  - loading takes the lines `readlines()` returns;
  - saving returns the chunks it would write;
  - the round trip assumes that reading a file written as those chunks gives them back;
  - the debug prints are dropped.
- Sentences.ParseIndex: `str.isdigit()` also accepts non-ASCII digits. Only ASCII digits
  are modelled. A first line that `isdigit()` accepts but `int()` rejects, such as "²",
  makes `load_from_txt` raise `ValueError`; the model returns index 0 there instead.
- Moving, resizing, hit-testing and automatic placement of rectangles: the code has only
  create and delete, so none of these is modelled.
- Sentences.Escape: only `\n` is escaped. A `\r` in a value is written as it is, and a
  reader that treats `\r` as a line end splits the row there, so `SaveLoadRoundTrip` is
  stated for values without `\r`.
- The `ValueError` of `save_to_txt` becomes the `NoPath` result.
- `main.py`, `back_end.py`, `server.py` and `main_build.py` are not part of this model.
  They hold window glue, JSON configuration files, the upload server and the build script.
