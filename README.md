# termiart in Dafny

termiart is a terminal drawing program whose engine is a `Canvas`, a
`width * height` grid of colours. Each cell has an RGB value and a code:
NONE, BOUNDARY or TEMP. The canvas also keeps:

- a stack of snapshots that `undo` goes back to;
- the set of rows that `draw` has to write to the terminal again;
- the set of boundary segments inside which the seeded `fill_area` floods.

Around the canvas sit a binary file format, a command-line parser, `$name`
expansion for the `print` command, text wrapping for the output panes, and a
cursor that is clamped to the canvas.

This project models that core in Dafny and proves what each operation does.

- **Colours** (`colors.dfy`). Every cell write goes through the colour
  assignment rule: a TEMP source changes only the code.
- **Points and segments** (`geometry.dfy`):
  - the point order;
  - the segment intersection test, with its singular branches over `real`;
  - the sampled points of a line, with the `double` steps taken as exact
    rationals.
- **Grid** (`grid.dfy`): selectors and rewrites. `Update(g, w, sel, f)` is
  the grid `g` with every selected cell rewritten by `f`, and `Rows` is the
  set of rows such an update touches. This module also holds the snapshot
  taken by `save_old` and the clearing of TEMP cells.
- **Shapes** (`shapes.dfy`): the cells each drawing operation writes. These
  are the rectangle, the line samples, the integer annulus of
  `draw_circle`, the mirrored disk of `fill_circle` and the even-crossings
  region of the seeded fill.
- **Canvas** (`canvas.dfy`): a class around an `array<Color>`. Every mutator
  is proved against the functions above. It either refuses an off-canvas
  point with nothing changed, or pushes a single snapshot, leaves the grid
  equal to an `Update` of the old grid, and adds exactly the touched rows to
  the dirty set.
- **Render** (`render.dfy`): the text `draw` writes for a row, and the walk
  of the dirty set in ascending order.
- **Serial** (`serial.dfy`): the file layout of `save` and the file
  constructor. This covers the version tag, a NUL, two little-endian 32-bit
  sizes and three bytes per cell. The decoder skips whitespace bytes, as
  formatted `>>` does.
- **Text** (`text.dfy`): `split_string`, `split_string_to_lines` and a model
  of `std::stoi`.
- **Commands** (`commands.dfy`): `Terminal::to_command` into a `Command`
  datatype, `OutputCommand::execute` and `get_var`.
- **Cursor** (`cursor.dfy`): `Cursor::move_x` and `move_y` with the source's
  signed and unsigned casts.

## Model

| member | source | states |
|---|---|---|
| Colors.Assign | termiart.cpp:86-107 | the result carries the source's code; its RGB value is the destination's for a TEMP source and the source's otherwise |
| Colors.GetReverse | termiart.cpp:109-111 | each component is the 255-complement of the colour's, and the code is NONE |
| Colors.Reverse | termiart.cpp:113-118 | each component is the 255-complement of the colour's, and the code is kept |
| Colors.AssignTempKeepsRgb | termiart.cpp:86-107 | assigning a TEMP colour sets the destination's code to TEMP and keeps its RGB value |
| Colors.AssignCopiesNonTemp | termiart.cpp:86-107 | assigning any other colour makes the destination equal to the source in all four fields |
| Colors.AssignCode | termiart.cpp:86-107 | the result is TEMP iff the source is; a non-TEMP source gives the same result whatever the destination |
| Colors.AssignIdempotent | termiart.cpp:86-107 | assigning the same colour twice is the same as once |
| Colors.GetReverseInvolution | termiart.cpp:109-111 | `get_reverse` twice gives back the RGB value with code NONE, and its result is always NONE |
| Colors.ReverseInvolution | termiart.cpp:113-118 | `reverse` is an involution, keeps the code and has the RGB value of `get_reverse` |
| Geometry.LessIsStrictTotalOrder | termiart.cpp:47-52 | `Point::operator<` is irreflexive, asymmetric, transitive and total on distinct points |
| Geometry.SegmentEquivalenceIsEquality | termiart.cpp:47-52 | on boundary segments (points of points), neither being less than the other means equal, so the set keeps every distinct `(start, end)` |
| Geometry.Intersects | termiart.cpp:154-210 | two single-point segments meet iff they are the same point; segments sharing the end points `p2` and `p4` are reported, except a single point against a segment that is neither vertical nor horizontal |
| Geometry.IntersectsRegular | termiart.cpp:154-179 | with a non-zero determinant, `intersects` holds iff the two closed segments share a point |
| Geometry.IntersectsSound | termiart.cpp:154-210 | in every branch, `intersects` reports a meeting only when the segments do share a point |
| Geometry.IntersectsCollinearComplete | termiart.cpp:180-203 | in the singular branches that divide by a non-zero value, collinear segments that overlap are reported |
| Geometry.IntersectsMissesDegenerate | termiart.cpp:180-207 | two examples of a common point that is not reported: the point (1,1) on the diagonal from (0,0) to (2,2), and the point (0,1) on the vertical segment from (0,2) to (0,0) |
| Geometry.PointAgainstDiagonal | termiart.cpp:190-195 | a one-point segment p1 == p2 is never reported against a segment p3-p4 with x3 != x4 and y3 != y4, because the ratio the source divides by is zero |
| Geometry.VerticalAgainstPoint | termiart.cpp:204-206 | a vertical segment p1-p2 against a one-point segment q-q is reported exactly when q == p2 |
| Geometry.SampleEnds | termiart.cpp:362-373 | sample 0 of a line is its start, and sample `fineness` is its end when `fineness > 0` |
| Geometry.SampleInBox | termiart.cpp:379-394 | every sample lies in the bounding box of the two ends |
| Geometry.SampleDegenerate | termiart.cpp:379-394 | every sample of a line from p to p is p |
| Geometry.RoundDivNearest | termiart.cpp:368 | the rounding of a sample coordinate is to the nearest integer, halves away from zero (`lround`) |
| Grid.UpdateAt | termiart.cpp:312-457 | after an update, a selected cell is the rewrite of its old value and every other cell is unchanged |
| Grid.SnapshotFaithful | termiart.cpp:291-306 | a `save_old` snapshot equals the grid iff every TEMP cell is white, so `undo(1)` after a mutator restores it exactly in that case |
| Grid.SnapshotCells | termiart.cpp:291-295 | a snapshot keeps each cell's code and each non-TEMP cell, and turns a TEMP cell into white TEMP |
| Grid.ClearTempMeaning | termiart.cpp:222-232 | after clearing, no cell is TEMP, every RGB value is kept, non-TEMP cells are unchanged, and clearing is idempotent |
| Grid.TempRowsMeaning | termiart.cpp:222-232 | the rows `reset_temp` marks are exactly the rows holding a TEMP cell |
| Grid.TempRowsCleared | termiart.cpp:222-232 | a cleared grid has no TEMP rows left |
| Grid.ClearTempIsTempUpdate | termiart.cpp:222-232 | rewriting exactly the TEMP cells to NONE is the clearing |
| Grid.ColumnsStep | termiart.cpp:222-232 | one step of a column-by-column scan rewrites the current cell iff it is selected and marks its row |
| Grid.ColumnsEnd | termiart.cpp:404-433 | the finished column scan has rewritten exactly the selected cells of the grid and marked exactly their rows |
| Grid.RowsUnion | termiart.cpp:443-456 | the rows touched by two selections are the union of the rows each touches |
| Shapes.RectCorners | termiart.cpp:319-333 | the rectangle does not depend on the order of its corners and holds all four of them |
| Shapes.RectRows | termiart.cpp:328-332 | the rows a rectangle touches are exactly `min.y..max.y` |
| Shapes.LineEndsAndBox | termiart.cpp:379-394 | a line holds its start, holds its end when `fineness > 0`, and lies inside the rectangle of its ends |
| Shapes.LineSingle | termiart.cpp:379-394 | a line from p to p, or with `fineness` 0, is the single cell p |
| Shapes.RingExact | termiart.cpp:422-431 | for radii whose `r*r + r` fits 32 bits, a cell is on the ring iff `r*r - r <= dx*dx + dy*dy <= r*r + r` |
| Shapes.RingOnAxes | termiart.cpp:422-431 | the four axis points at distance r from the centre are on the ring |
| Shapes.RingCentre | termiart.cpp:422-431 | the centre is on the ring iff `r <= 1` |
| Shapes.RingMirror | termiart.cpp:443-456 | the ring is symmetric about the centre column |
| Shapes.RingWrapsAway | termiart.cpp:427-428 | at `r = 65536` the unsigned `r*r` wraps to 0 and no cell is on the ring |
| Shapes.DiskCoversRing | termiart.cpp:443-456 | the filled disk holds every ring cell up to twice the centre column |
| Shapes.DiskMirror | termiart.cpp:443-456 | the filled disk is symmetric about the centre column |
| Shapes.DiskRowsConnected | termiart.cpp:450-453 | within a row, the filled disk has no gaps |
| Shapes.DiskBounded | termiart.cpp:450 | the filled disk never goes right of column `2*p.x` |
| Shapes.EvenCrossingsEmpty | termiart.cpp:212-220 | with no boundary, `in_area` holds for every cell |
| Shapes.EvenCrossingsAdd | termiart.cpp:212-220 | adding one boundary segment flips `in_area` exactly for the cells whose segment to the seed crosses it |
| Shapes.Seeded | termiart.cpp:399-415 | the cells `fill_area` selects include every BOUNDARY cell, and every cell when no boundary has been drawn |
| Shapes.SeededCovers | termiart.cpp:399-415 | the seeded fill covers every cell when there is no boundary, and always covers the boundary cells |
| Canvases.FillCells | termiart.cpp:237 | the constructor's first loop: every cell of the array holds the given colour |
| Canvases.Canvas.constructor | termiart.cpp:235-239 | every cell is `bg` assigned onto white, there is no history or boundary, and every row is dirty |
| Canvases.Canvas.Open | termiart.cpp:241-268 | a failed decode gives its error (the model reports Truncated where the source loops forever or builds the canvas from failed extractions); otherwise the canvas has the decoded size and cells, and every row is dirty |
| Canvases.Canvas.Save | termiart.cpp:278-289 | the bytes are the encoding of the grid; when no component is a whitespace byte, decoding them gives back the size and the RGB values, every code NONE |
| Canvases.Canvas.SaveOld | termiart.cpp:291-295 | the snapshot of the grid is pushed onto the history and nothing else changes |
| Canvases.Canvas.Undo | termiart.cpp:297-306 | with no history nothing changes; otherwise the grid becomes `history[n - times]`, the history keeps its first `n - times` entries, and every row is dirty |
| Canvases.Canvas.UpdateLine | termiart.cpp:310 | the row joins the dirty set and nothing else changes |
| Canvases.Canvas.DrawPoint | termiart.cpp:312-317 | an off-canvas point changes nothing; otherwise one snapshot is pushed, only the cell is assigned the colour, and its row is dirty |
| Canvases.Canvas.FillRect | termiart.cpp:319-333 | both corners must be on the canvas; the rectangle's cells are assigned the colour, nothing else changes, and rows `min.y..max.y` are dirty |
| Canvases.Canvas.DrawLine | termiart.cpp:379-397 | the samples' cells are assigned the colour and their rows made dirty; then the TEMP cells are cleared and their rows marked iff the colour is not TEMP |
| Canvases.Canvas.DrawBoundaryLine | termiart.cpp:356-377 | the samples' cells get code BOUNDARY with their RGB kept; only the rows of cells not already BOUNDARY become dirty; the segment joins the boundary |
| Canvases.Canvas.InArea | termiart.cpp:212-220 | the result is whether the seed-to-cell segment crosses an even number of boundary segments |
| Canvases.Canvas.FillArea | termiart.cpp:399-415 | exactly the boundary cells and the cells at even crossings from the seed are assigned the colour and their rows made dirty; then the TEMP settle as in `DrawLine` |
| Canvases.Canvas.DrawCircle | termiart.cpp:417-436 | exactly the ring cells are assigned the colour and their rows made dirty; then the TEMP settle |
| Canvases.Canvas.FillCircle | termiart.cpp:438-457 | exactly the cells of the mirrored disk are assigned the colour and its rows made dirty; there is no TEMP settle |
| Canvases.Canvas.ResetTemp | termiart.cpp:222-232 | the grid becomes its TEMP-cleared form and the rows that held TEMP cells become dirty |
| Canvases.CellsLine | termiart.cpp:337-347 | the inner loop of `draw` over a cell array: the text it builds for row y is that row's rendering, cell by cell |
| Canvases.Canvas.RowLine | termiart.cpp:336-347 | the text built for a row is its rendering, cell by cell |
| Canvases.Canvas.WriteRow | termiart.cpp:337-349 | one more dirty row's line appended to the frame is that row's rendering |
| Canvases.Canvas.MarkedLines | termiart.cpp:336-350 | the lines written are those of the dirty rows, in ascending order |
| Canvases.Canvas.Draw | termiart.cpp:335-354 | the dirty rows are written; then the grid has no TEMP cell, keeps every RGB value, and the dirty set is exactly the rows that held TEMP cells |
| Render.CellTextCodes | termiart.cpp:341-346 | all TEMP cells look alike, and a cell's text shows its code |
| Render.RowTextLocal | termiart.cpp:338-347 | a row's text depends on that row's cells only |
| Render.AscendingMeaning | termiart.cpp:336 | the walk lists the dirty rows below the height, each once, in increasing order |
| Serial.LE32RoundTrip | termiart.cpp:257-258 | a 32-bit size read back from its four little-endian bytes is itself |
| Serial.DecodeEncode | termiart.cpp:241-289 | decoding what `save` writes gives the size and the cells (with code NONE) when no component is a whitespace byte |
| Serial.SpaceComponentLost | termiart.cpp:261-265 | a cell with component 32 does not round-trip: formatted `>>` skips the space byte, and the model reports Truncated where the source builds the canvas from a failed extraction |
| Serial.VersionChecked | termiart.cpp:248-255 | a tag other than the version is refused before any cell is read |
| Serial.DecodedPlain | termiart.cpp:259-265 | a decoded picture has 32-bit sizes, `width * height` cells and every code NONE |
| Text.SplitString | termiart.cpp:554-567 | the loop computes the split of `s` at each occurrence of the delimiter |
| Text.SplitJoin | termiart.cpp:554-567 | joining the pieces with the delimiter gives back `s` |
| Text.SplitTokensFree | termiart.cpp:559-563 | no piece contains the delimiter |
| Text.JoinSplit | termiart.cpp:554-567 | splitting pieces free of a one-character delimiter after joining them gives the pieces back |
| Text.SplitFirstToken | termiart.cpp:554-567 | a token free of the delimiter and followed by it is the first piece split off |
| Text.SplitStringToLines | termiart.cpp:527-552 | the loop computes the wrap of `s` into lines |
| Text.WrapLinesFit | termiart.cpp:527-552 | for `length >= 1` every line is at most `length` long and holds no newline |
| Text.WrapLinesKept | termiart.cpp:527-552 | the lines joined together are `s` without its newlines and without the spaces that arrive when the current line is full; every other character is kept, in order |
| Text.KeptDropsOnlyBlanks | termiart.cpp:531-547 | every character other than a newline or a space is kept as often as it occurs |
| Text.KeptWithoutWrap | termiart.cpp:527-552 | a newline-free text shorter than `length` is kept whole, its spaces included |
| Text.WrapAfterNewline | termiart.cpp:532-536 | after a newline the counter restarts at 1, one ahead of the empty new line, and the next characters, up to `length - 1` of them, make up the current line |
| Text.WrapAfterNewlineEarly | termiart.cpp:532-547 | a line that follows a newline is closed after `length - 1` characters, one early |
| Text.Stoi | termiart.cpp:609-639 | `std::stoi`: a value it returns lies in `int`'s range |
| Text.StoiDecimal | termiart.cpp:609-639 | `stoi` of the decimal text of an `int` gives it back |
| Text.StoiSignedRun | termiart.cpp:609-639 | `stoi` of digits, after an optional minus sign, is their value (negated after the sign) when it fits an `int`, otherwise out of range |
| Text.StoiInvalid | termiart.cpp:609-639 | `stoi` throws `invalid_argument` exactly when no digit follows the leading white space and the optional sign |
| Text.StoiIgnoresTail | termiart.cpp:609-639 | the characters after the run of digits do not change the result |
| Text.StoiOutOfRange | termiart.cpp:609-639 | 2147483648, one above `INT_MAX`, is out of range |
| Commands.ToCommand | termiart.cpp:602-646 | an unknown first word gives NULL, and `invalid_argument` escapes only from `undo`, `cursor`, `draw` and `fill`, never from `color`, `print` or `save` |
| Commands.ParsedWord | termiart.cpp:602-646 | a parsed command is the one its first word names |
| Commands.ShortCommandIsNull | termiart.cpp:611-642 | a known command with fewer tokens than it reads (or a cursor command with other than 1 or 3) gives NULL, never an exception |
| Commands.UnknownIsNull | termiart.cpp:602-646 | an unknown first word gives NULL |
| Commands.CursorArity | termiart.cpp:611-615 | a cursor command has exactly 1 or 3 tokens, and 1 token means `(-1, -1)` |
| Commands.DrawArity | termiart.cpp:616-640 | draw line and boundary need at least 6 tokens, circles at least 5, color at least 4 |
| Commands.ColorErrors | termiart.cpp:616-622 | an invalid number in `color` gives NULL, but an out-of-range one escapes as an exception |
| Commands.DrawLineTyped | termiart.cpp:625-627 | `draw line a b c d` with in-range numbers gives the line from (a, b) to (c, d) |
| Commands.PrintText | termiart.cpp:605-606 | `print t` outputs `t`, and a bare `print` throws out of range |
| Commands.NegativeWraps | termiart.cpp:619-639 | a negative `int` coordinate becomes itself plus 2^32 and a non-negative one is kept; a colour component in 0..255 is kept and the conversion is periodic in 256 |
| Commands.GetVar | termiart.cpp:914-927 | the value is empty exactly for a name other than the five variables; `version` and `credits` give the fixed texts |
| Commands.Expand | termiart.cpp:885-908 | the expansion of a text without `$` is the text itself |
| Commands.ExpandOutput | termiart.cpp:885-908 | the loop computes the `$name` expansion of the text |
| Commands.ReadName | termiart.cpp:898-902 | the name runs up to the next space or `$` |
| Commands.NoVariablesUnchanged | termiart.cpp:885-908 | text without `$` is left unchanged |
| Commands.VariableExpands | termiart.cpp:896-904 | `$name` becomes the variable's value and the text after the name is kept, space included |
| Commands.UnknownVariableVanishes | termiart.cpp:896-927 | `$name` with a name other than the five variables is dropped, and the rest of the text, its leading space included, is expanded on its own |
| Cursors.Clamp | termiart.cpp:701-711 | the position after a move is the target, 0 or the cast of the unsigned `size - 1`, and it is the target whenever that lies in `[0, (int)size)` |
| Cursors.ClampInside | termiart.cpp:701-711 | on a canvas of ordinary size, a move ends inside `[0, size - 1]`, at the target when that is inside |
| Cursors.ClampIdempotent | termiart.cpp:701-711 | moving by 0 from a clamped position leaves it in place |
| Cursors.ClampMonotone | termiart.cpp:701-711 | clamping keeps the order of positions |
| Cursors.ClampEmpty | termiart.cpp:701-705 | on an empty axis the unsigned `size - 1` wraps and the cursor lands on -1, unless it was moved below 0, where it lands on 0 |
| Cursors.ClampHugeSize | termiart.cpp:701-705 | a size of 2^31 turns negative under the `(int)` cast and every move lands on the last cell |
| Cursors.Cursor.MoveX | termiart.cpp:701-705 | x becomes the clamp of `x + dx` and y is unchanged |
| Cursors.Cursor.MoveY | termiart.cpp:707-711 | y becomes the clamp of `y + dy` and x is unchanged |

## Left out

- Terminal I/O is not modelled: `termios` echo, cursor hiding, the signal handler, keystroke reading in `Terminal::main` and `Drawer::main`, and `main`. Printing is modelled only as the list of (row, text) lines `draw` writes.
- File streams are not modelled: opening, closing and stream failure in `save` and the file constructor. Both work on a byte sequence instead.
- Serial.Decode, Serial.SpaceComponentLost, Canvases.Canvas.Open: a short file reads as `Failure(Truncated)`, which the source never produces. When the tag ends before its NUL, `input_file >> c` fails and keeps `c`, so the tag loop at termiart.cpp:248-253 never ends (on an empty file `c` is indeterminate). When the cell bytes run out, `>> r >> g >> b` fails and the canvas is still built from the indeterminate components at termiart.cpp:261-265. The cell count `width * height` is an unsigned product that wraps modulo 2^32 at termiart.cpp:259-261; the decoder uses the exact product.
- Serial.SpaceComponentLost: on its 18-byte file the source does not refuse anything; it builds a 1x1 canvas with r = 0, g = 0 and an indeterminate b. The lemma shows that the space byte is lost, with Truncated standing for that indeterminate read.
- DrawLine, DrawBoundaryLine: the source adds a `double` step `fineness` times and applies `lround`. The model takes sample i exactly as `start + i * (end - start) / fineness`, rounded half away from zero. Accumulated rounding error is not modelled.
- DrawLine, DrawBoundaryLine: `fineness` is unbounded. The source's `int` counter against a `uint` bound never ends when `fineness` is `UINT_MAX`.
- Geometry.Intersects: the singular branches use exact `real` division, not IEEE `double`. In the branch that divides by `alpha == 0`, the source gets infinity or NaN; the model takes the comparison as false.
- FillArea, DrawCircle, FillCircle: these require `width, height <= 0x8000`. Below that bound, `dx*dx + dy*dy` and the intersection determinants fit `int`, because `Valid` keeps every boundary segment on the canvas. Above it the source has signed overflow, which is undefined.
- Shapes.OnRing: `r*r ± r` is computed modulo 2^32, as the unsigned arithmetic does. The `int` sum `dx*dx + dy*dy` is converted to unsigned for the comparison; the model takes the sum exactly, which agrees while it fits `int`, where it is never negative.
- FillCircle: requires `2 * p.x < width` for an on-canvas centre. Otherwise the source writes past the end of a row, or of the array.
- Undo: requires `1 <= times <= |history|` when there is history. The source pops from an empty vector, or leaves a freed canvas in place for `times <= 0`; both are undefined.
- Undo: the source moves the popped snapshot pointer into place. The model copies it into a fresh array, so aliasing between the canvas and its snapshots is not modelled.
- Undo: the leak of the skipped snapshots, and `delete` in place of `delete[]`, are memory bugs with no observable model.
- UpdateLine: requires the row to be below the height. Otherwise the source's `draw` would read out of bounds.
- Canvases.Canvas.constructor: requires sizes below 2^32, as `uint` holds them. The unsigned product `width * height` is taken as exact, with no wrap.
- Cursors.Cursor.MoveX, Cursors.Cursor.MoveY: `pos.x += dx` is taken without `int` overflow.
- `Cursor::to_string` and `get_pos` are not modelled, because they only format or convert.
- The `Drawer` glue, the `Command` class hierarchy and the command `execute` wrappers are not modelled, because they only forward to the canvas. The parser's output is the `Command` datatype.
- Commands.ToCommand: the source's order of evaluating several `stoi` calls in one constructor call is unspecified. The model reports the leftmost failure.
- Commands.ToCommand: `stoi` is modelled for ASCII decimal text with optional leading whitespace and sign. Other bases, prefixes and locales are not modelled.
- Canvases.Canvas.Draw: `std::set` iteration is modelled as an ascending walk over the rows below the height.
- Canvases.Canvas.CellAt: `operator[]` carries no contract beyond its body. It is the cell at index `y * width + x`.
- Canvases.Canvas.Scan: one column-by-column loop stands for the identical loops of `reset_temp` and `draw_circle`.
- `get_var` reads the cursor, the cell under it and the canvas size from an environment value, not from the `Drawer`.
