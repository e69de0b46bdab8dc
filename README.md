# FireState visualisation, modelled in Dafny

This project models the core of `API_FireState_Visualization`, the Swing frame of the
DEVS-FIRE wide-area fire simulation. The frame takes the result string of a simulation run
and shows the fire as coloured cells on a 200 by 200 grid. The core has four parts, and the
model keeps each of them:

- **Feed parser** (`visualize`, the first half), in modules `JavaLang` and `Feed`.
  - The feed loses its first two characters and its last one, and the rest is split on `{`.
  - Each piece is classified by the text between fixed offsets from the first `Operation`
    and the first `time`.
  - A `BurnCell` piece has its x, y, time and one-character state cut out at fixed offsets
    from the first `y`, `Operation`, `time` and `state`. They are stored at a running index.
  - Java's `String.substring`, `indexOf`, `split`, `Integer.valueOf` and `Double.valueOf`
    are written out in `JavaLang`. Their exceptions become `Err` values.
  - `FeedFormat` lays out events as feed text and proves that the parser reads them back.
- **Playback loop** (`visualize`, the second half), in module `Playback` and
  `FireStateView.PlayEvents`.
  - A cursor and a clock start at the first parsed time.
  - An event is drawn while its time is below clock + 100. Otherwise the clock steps by 100,
    the title shows the new clock and the frame pauses.
  - `PlayTrace` is the loop as a trace of rounds, and the lemmas about it state what the
    loop does. The class logs each round it takes in the ghost field `rounds`, and the
    imperative loop is proved to take exactly the rounds of that trace, in order.
- **Coordinate mapping** (`scaleX`, `scaleY`, `forceXInBounds`, `forceYInBounds`,
  `drawCellToScale`), in module `Mapping`.
  - It is clamp arithmetic around the centre `Math.rint(dim / 2.0)`, with the y axis flipped.
  - The pixel origin is `index * cellSize + 1`.
  - A request landing on the agent's pixel only remembers its colour.
  - Java `int` is the subset type `Int32`. Wrap-around (`Wrap32`), truncating division
    (`JavaDiv`) and the saturating `(int)` cast of a double (`SatInt32`) are explicit.
- **Cell store and repaint**, in module `CellStore` and class `View.FireStateView`.
  - The colour grid is an `array2<Option<Color>>`, with `None` for Java's `null`.
    `fillCell` writes it one entry at a time and `setCellSize` reallocates it empty.
  - The constructor runs `createGridView`, whose background loop draws all 200 × 200 cells.
  - The cell loop of `GridPanel.paint` reads the grid and emits one rectangle per set entry.
  - Rectangles painted on the panel are recorded as a sequence of `Fill` values.

The class `FireStateView` has the frame's fields:

- `cellSize`;
- `spaceSize`, as `spaceWidth` and `spaceHeight`;
- `grid`;
- `AgentX`, `AgentY`, `preAgentCellColor` and `displayGrid`;
- the recorded fills, the title and the number of pauses;
- the ghost log `rounds` of the playback's rounds, one trace step per round.

Its methods are proved against value-level functions of `CellStore`. `FillsOf`, `CellAfter`
and `AgentColorAfter` give the fills, the grid and the remembered agent colour after a run
of `drawCellToScale` requests. The ghost predicate `Shows` ties the object to them.

## Behaviour worth knowing

The model follows what the code does, including these points:

- Each field is read at a fixed character offset from the first occurrence of a key.
- A BurnCell piece that cannot be cut or converted ends `visualize` with the Java
  exception.
- A state other than 1 or 2 is stored like any other. The playback consumes such an event
  and draws nothing.
- A feed with no pieces throws at `time[0]`, because it has no first time. A feed with
  pieces but no BurnCell record sets the title to time 0 and then throws at `time[-1]`.
- The times 0, 50, 150 and 260 take two clock steps, 0 → 100 → 200
  (`Playback.ExamplePauses`). 260 is drawn in the round whose clock is 200, since
  260 < 200 + 100.
- The final title shows the last event's time truncated to an `int`.

Three consequences of the code's `int` arithmetic are proved:

- With 1-pixel cells, the `+ 1` of the pixel origin moves every stored entry one cell to the
  right and one cell down (`Mapping.OnePixelCellsShift`).
- The background loop never paints row 0, and it paints row 199 twice
  (`CellStore.BackgroundStore`, `Mapping.BackgroundRowsCovered`).
- The 201 lowest `int` y values, MinInt32 to MinInt32 + 200, land on row 0, although their
  flipped values would clamp to row 199 (`Mapping.ExtremeYWrapsToRowZero`). Below
  MinInt32 + 100 the wrap is in `cellY - 100`; for the rest it is in `centerY + (int)y`.

## Model

All source cells refer to
`src/main/scala/scalation/simulation/process/wide_FIRE/API_FireState_Visualization.java`.

| member | source | states |
|---|---|---|
| JavaLang.Wrap32 | src/main/scala/scalation/simulation/process/wide_FIRE/API_FireState_Visualization.java:324-325 | the `int` result of an exact computation is congruent to it modulo 2^32, and equal to it when it fits in an `int` |
| JavaLang.WrapAddWrap | src/main/scala/scalation/simulation/process/wide_FIRE/API_FireState_Visualization.java:272-273 | adding to a wrapped `int` operand gives the same `int` as adding to the exact one |
| JavaLang.SatInt32 | src/main/scala/scalation/simulation/process/wide_FIRE/API_FireState_Visualization.java:273 | the `(int)` cast of a double that holds an integer: the value itself inside the `int` range, MinInt32 or MaxInt32 beyond it; used by `Mapping.ScaleX` and `Mapping.ScaleY`, whose lemmas `FeedXPassesThrough`, `FeedYFlips` and `ExtremeYWrapsToRowZero` state its effect |
| JavaLang.TruncReal | src/main/scala/scalation/simulation/process/wide_FIRE/API_FireState_Visualization.java:160 | the `(int)` cast of the last time for the final title: truncation toward zero; the title it yields is stated by `View.FireStateView.PlayEvents` and `View.FireStateView.Visualize` |
| JavaLang.JavaDiv | src/main/scala/scalation/simulation/process/wide_FIRE/API_FireState_Visualization.java:356 | Java's `/` rounds toward zero: for a positive divisor, the floor quotient of a non-negative dividend and the negated quotient of the magnitude of a negative one |
| JavaLang.IndexOf | src/main/scala/scalation/simulation/process/wide_FIRE/API_FireState_Visualization.java:119-121 | `indexOf` gives -1 or a position where the pattern occurs, and the pattern occurs at no earlier position |
| JavaLang.Substring | src/main/scala/scalation/simulation/process/wide_FIRE/API_FireState_Visualization.java:106 | `substring(b, e)` succeeds exactly when 0 <= b <= e <= length and then has length e - b; otherwise it throws StringIndexOutOfBounds |
| JavaLang.Pieces | src/main/scala/scalation/simulation/process/wide_FIRE/API_FireState_Visualization.java:109 | cutting at a separator gives at least one piece, and no piece holds the separator |
| JavaLang.JoinPieces | src/main/scala/scalation/simulation/process/wide_FIRE/API_FireState_Visualization.java:109 | joining the pieces with the separator gives back the text |
| JavaLang.PiecesJoin | src/main/scala/scalation/simulation/process/wide_FIRE/API_FireState_Visualization.java:109 | cutting a join of separator-free pieces gives back the pieces |
| JavaLang.DropTrailingEmpty | src/main/scala/scalation/simulation/process/wide_FIRE/API_FireState_Visualization.java:109 | the result is a prefix of the input, everything dropped is empty, and the result does not end in an empty piece |
| JavaLang.JoinSnocEmpty | src/main/scala/scalation/simulation/process/wide_FIRE/API_FireState_Visualization.java:109 | one more empty piece adds one more separator at the end of the join |
| JavaLang.DropTrailingJoin | src/main/scala/scalation/simulation/process/wide_FIRE/API_FireState_Visualization.java:109 | dropping the trailing empty pieces removes only separators from the end of the joined text |
| JavaLang.Split | src/main/scala/scalation/simulation/process/wide_FIRE/API_FireState_Visualization.java:109 | no piece holds the delimiter; when the delimiter occurs the last piece is not empty; the result is empty only for a non-empty text; and the pieces joined on the delimiter give the text up to a run of delimiters at its end |
| JavaLang.SplitJoin | src/main/scala/scalation/simulation/process/wide_FIRE/API_FireState_Visualization.java:109 | splitting a join of delimiter-free pieces whose last piece is non-empty gives back the pieces |
| JavaLang.ParseInt | src/main/scala/scalation/simulation/process/wide_FIRE/API_FireState_Visualization.java:124-127 | `Integer.valueOf` only fails with NumberFormat, and what it accepts is non-empty and all digits unless it starts with a sign |
| JavaLang.ParseIntString | src/main/scala/scalation/simulation/process/wide_FIRE/API_FireState_Visualization.java:124-127 | parsing the decimal text of any `int` gives back that `int` |
| JavaLang.Trim | src/main/scala/scalation/simulation/process/wide_FIRE/API_FireState_Visualization.java:126 | `String.trim` as used inside `Double.valueOf`: drops every character up to a space at the start, then at the end; `TrimPadded` states which text it yields |
| JavaLang.TrimPadded | src/main/scala/scalation/simulation/process/wide_FIRE/API_FireState_Visualization.java:126 | `trim` removes exactly the blanks (characters up to a space) around a text that starts and ends with a non-blank |
| JavaLang.ParseDecimal | src/main/scala/scalation/simulation/process/wide_FIRE/API_FireState_Visualization.java:126 | reading decimal notation only fails with NumberFormat |
| JavaLang.ParseDecimalIntString | src/main/scala/scalation/simulation/process/wide_FIRE/API_FireState_Visualization.java:126 | the decimal text of any `int` reads as that number |
| JavaLang.ParseDouble | src/main/scala/scalation/simulation/process/wide_FIRE/API_FireState_Visualization.java:126 | `Double.valueOf`, which trims the text and drops one type suffix d, D, f or F, only fails with NumberFormat |
| JavaLang.ParseDoublePadded | src/main/scala/scalation/simulation/process/wide_FIRE/API_FireState_Visualization.java:126 | the decimal text of any `int`, with blanks on either side and an optional type suffix, parses as that number |
| JavaLang.ParseDoubleIntString | src/main/scala/scalation/simulation/process/wide_FIRE/API_FireState_Visualization.java:126 | parsing the decimal text of any `int` as a double gives that number |
| Feed.OperationOf | src/main/scala/scalation/simulation/process/wide_FIRE/API_FireState_Visualization.java:119-122 | cutting out the operation name can only throw StringIndexOutOfBounds |
| Feed.ExtractEvent | src/main/scala/scalation/simulation/process/wide_FIRE/API_FireState_Visualization.java:123-127 | reading the four fields of a BurnCell piece throws only StringIndexOutOfBounds or NumberFormat |
| Feed.ReadPiece | src/main/scala/scalation/simulation/process/wide_FIRE/API_FireState_Visualization.java:119-132 | a round stores an event exactly when the piece is a BurnCell record whose fields read, and then it stores those fields; it stores nothing and does not throw exactly when the name cuts out and is not `BurnCell` |
| Feed.ReadAll | src/main/scala/scalation/simulation/process/wide_FIRE/API_FireState_Visualization.java:117 | one round per piece |
| Feed.ParsePieces | src/main/scala/scalation/simulation/process/wide_FIRE/API_FireState_Visualization.java:117-133 | the parse for-loop over the pieces: the events of its rounds in order, or the first exception a round throws; its properties are `ParsePiecesLast`, `ParsePiecesOk`, `ParsePiecesFirstError`, `ParsePiecesEvents` and `ParsePiecesRecords` |
| Feed.ParsePiecesLast | src/main/scala/scalation/simulation/process/wide_FIRE/API_FireState_Visualization.java:117-133 | the parse of n pieces is the parse of the first n - 1, followed by the round of the last piece |
| Feed.BurnPieces | src/main/scala/scalation/simulation/process/wide_FIRE/API_FireState_Visualization.java:122 | the pieces selected are BurnCell records, and there are no more of them than pieces |
| Feed.Extracted | src/main/scala/scalation/simulation/process/wide_FIRE/API_FireState_Visualization.java:124-128 | one event per record |
| Feed.ParsePiecesOk | src/main/scala/scalation/simulation/process/wide_FIRE/API_FireState_Visualization.java:117-133 | the parse loop finishes without an exception exactly when every piece reads without one |
| Feed.ParsePiecesFirstError | src/main/scala/scalation/simulation/process/wide_FIRE/API_FireState_Visualization.java:117-133 | a failed parse throws the exception of some piece, and every piece before that one reads cleanly |
| Feed.ParsePiecesEvents | src/main/scala/scalation/simulation/process/wide_FIRE/API_FireState_Visualization.java:117-133 | when no piece throws, the parsed events are those of the BurnCell pieces in feed order, and their number (the final `index`) is the number of BurnCell pieces |
| Feed.ParsePiecesRecords | src/main/scala/scalation/simulation/process/wide_FIRE/API_FireState_Visualization.java:117-133 | pieces that each read as an event parse into exactly those events |
| Feed.FeedPieces | src/main/scala/scalation/simulation/process/wide_FIRE/API_FireState_Visualization.java:106-109 | stripping throws StringIndexOutOfBounds exactly when the feed is shorter than three characters |
| Feed.ParseFeed | src/main/scala/scalation/simulation/process/wide_FIRE/API_FireState_Visualization.java:106-133 | a successful parse never stores more events than there are pieces |
| Feed.ParsedCount | src/main/scala/scalation/simulation/process/wide_FIRE/API_FireState_Visualization.java:128 | the running index never passes the number of pieces |
| Feed.EmptyListThrows | src/main/scala/scalation/simulation/process/wide_FIRE/API_FireState_Visualization.java:106 | the feed `[]` is too short to strip and throws StringIndexOutOfBounds |
| Feed.ParseRecords | src/main/scala/scalation/simulation/process/wide_FIRE/API_FireState_Visualization.java:110-133 | the loop over freshly allocated, zero-filled arrays of one slot per piece either throws the exception `ParsePieces` gives, or leaves the parsed events in the first `index` slots and zeros after them |
| FeedFormat.RecordFields | src/main/scala/scalation/simulation/process/wide_FIRE/API_FireState_Visualization.java:124-127 | in a record laid out from its field texts, each field text sits exactly between the offsets the parser cuts it from |
| FeedFormat.ReadRecord | src/main/scala/scalation/simulation/process/wide_FIRE/API_FireState_Visualization.java:119-129 | a record laid out from an event with an integral time and a one-digit state reads back as that event |
| FeedFormat.FeedTextPieces | src/main/scala/scalation/simulation/process/wide_FIRE/API_FireState_Visualization.java:106-109 | stripping and splitting a feed laid out from events gives one piece per event |
| FeedFormat.PiecesTextRead | src/main/scala/scalation/simulation/process/wide_FIRE/API_FireState_Visualization.java:117-129 | every piece of such a feed reads as its own event |
| FeedFormat.FeedRoundTrip | src/main/scala/scalation/simulation/process/wide_FIRE/API_FireState_Visualization.java:106-133 | parsing a feed laid out from events gives back exactly those events, with one piece per event |
| Mapping.ForceInBounds | src/main/scala/scalation/simulation/process/wide_FIRE/API_FireState_Visualization.java:295-312 | the result lies in 0..dim-1 and in-range values are unchanged; negative values go to 0 and values at or past dim go to dim - 1 |
| Mapping.Center | src/main/scala/scalation/simulation/process/wide_FIRE/API_FireState_Visualization.java:272 | `Math.rint(dim / 2.0)` is within one half of dim / 2, and even when dim is odd |
| Mapping.ScaleX | src/main/scala/scalation/simulation/process/wide_FIRE/API_FireState_Visualization.java:270-275 | `scaleX`: the centre plus the `(int)` of x, wrapped as an `int` sum and forced into the grid width; `FeedXPassesThrough` states where a feed x lands |
| Mapping.ScaleY | src/main/scala/scalation/simulation/process/wide_FIRE/API_FireState_Visualization.java:283-288 | `scaleY`: the centre plus the `(int)` of y, wrapped as an `int` sum and forced into the grid height; `FeedYFlips` and `ExtremeYWrapsToRowZero` state where a feed y lands |
| Mapping.Pixel | src/main/scala/scalation/simulation/process/wide_FIRE/API_FireState_Visualization.java:324-325 | the pixel origin drawCellToScale computes: the scaled x and the scaled negated y, each times the cell size plus one; `OriginDividesBack` and `TargetIsScaledIndex` state how it maps back to a cell |
| Mapping.Intercepted | src/main/scala/scalation/simulation/process/wide_FIRE/API_FireState_Visualization.java:327-330 | the agent check: the pixel equals the agent position; `DefaultNeverIntercepted` states that the default agent intercepts nothing |
| Mapping.StoreIndex | src/main/scala/scalation/simulation/process/wide_FIRE/API_FireState_Visualization.java:356 | the entry fillCell stores, when it stores one, lies inside the grid |
| Mapping.Target | src/main/scala/scalation/simulation/process/wide_FIRE/API_FireState_Visualization.java:321-333 | the entry a drawCellToScale request writes, when it writes one, lies inside the grid |
| Mapping.OriginDividesBack | src/main/scala/scalation/simulation/process/wide_FIRE/API_FireState_Visualization.java:324-325 | with cells of 2 pixels or more, the pixel origin `index * cellSize + 1` does not overflow and divides back to the index |
| Mapping.TargetIsScaledIndex | src/main/scala/scalation/simulation/process/wide_FIRE/API_FireState_Visualization.java:324-356 | with cells of 2 pixels or more and a grid that fits the display, fillCell stores exactly the entry (scaleX, scaleY) that drawCellToScale computed |
| Mapping.OnePixelCellsShift | src/main/scala/scalation/simulation/process/wide_FIRE/API_FireState_Visualization.java:324-356 | with 1-pixel cells the stored entry is one right and one down from the scaled index, and nothing is stored when that leaves the grid |
| Mapping.DefaultNeverIntercepted | src/main/scala/scalation/simulation/process/wide_FIRE/API_FireState_Visualization.java:327-330 | with the agent at (-1, -1) and 3-pixel cells, no request is intercepted |
| Mapping.DefaultTarget | src/main/scala/scalation/simulation/process/wide_FIRE/API_FireState_Visualization.java:270-288 | in the default geometry every request writes the entry at its scaled index |
| Mapping.FeedXPassesThrough | src/main/scala/scalation/simulation/process/wide_FIRE/API_FireState_Visualization.java:270-275 | a feed x coordinate, drawn at x - 100, lands on column x clamped to 0..199, for every `int` |
| Mapping.FeedYFlips | src/main/scala/scalation/simulation/process/wide_FIRE/API_FireState_Visualization.java:283-288 | a feed y coordinate, drawn at y - 100 and negated, lands on row 200 - y clamped to 0..199 whenever 200 - y does not overflow |
| Mapping.ExtremeYWrapsToRowZero | src/main/scala/scalation/simulation/process/wide_FIRE/API_FireState_Visualization.java:283-288 | every y from MinInt32 to MinInt32 + 200 lands on row 0 while its flip clamps to row 199; `cellY - 100` (line 143) wraps exactly below MinInt32 + 100, and from there on `centerY + (int)y` overflows |
| Mapping.BackgroundRowValue | src/main/scala/scalation/simulation/process/wide_FIRE/API_FireState_Visualization.java:204-208 | outer index i of the background loop paints row 199 for i <= 1 and row 200 - i otherwise |
| Mapping.BackgroundColumnValue | src/main/scala/scalation/simulation/process/wide_FIRE/API_FireState_Visualization.java:205-208 | inner index j of the background loop paints column j |
| Mapping.BackgroundRowsCovered | src/main/scala/scalation/simulation/process/wide_FIRE/API_FireState_Visualization.java:204-210 | the background loop paints rows 1..199 only, row 199 for both i = 0 and i = 1, and every column 0..199 |
| CellStore.FillsOf | src/main/scala/scalation/simulation/process/wide_FIRE/API_FireState_Visualization.java:350-353 | the rectangles a run of drawCellToScale requests paints, one per request the agent does not intercept; `FillsOfAppend`, `FillsOfSnoc` and `FillsOfCount` state its properties |
| CellStore.CellAfter | src/main/scala/scalation/simulation/process/wide_FIRE/API_FireState_Visualization.java:345-357 | the value grid entry (x, y) holds after a run of requests: the colour of the last request whose target it is, or its initial value; `LastWriterWins` states this against an independent definition |
| CellStore.UntargetedKeeps | src/main/scala/scalation/simulation/process/wide_FIRE/API_FireState_Visualization.java:345-357 | an entry no request targets keeps its initial colour |
| CellStore.LastTargetWins | src/main/scala/scalation/simulation/process/wide_FIRE/API_FireState_Visualization.java:345-357 | an entry holds the colour of request k when k targets it and no later request does |
| CellStore.LastWriterWins | src/main/scala/scalation/simulation/process/wide_FIRE/API_FireState_Visualization.java:345-357 | after a run of requests an entry no request targets keeps its colour, and any other entry holds the colour of the last request that targets it |
| CellStore.CellAfterAppend | src/main/scala/scalation/simulation/process/wide_FIRE/API_FireState_Visualization.java:356 | two runs of requests store what the second run stores starting from the first run's result |
| CellStore.CellAfterSnoc | src/main/scala/scalation/simulation/process/wide_FIRE/API_FireState_Visualization.java:356 | one more request overwrites its target entry and no other |
| CellStore.CellAfterOutside | src/main/scala/scalation/simulation/process/wide_FIRE/API_FireState_Visualization.java:356 | entries outside the grid are never written |
| CellStore.FillsOfAppend | src/main/scala/scalation/simulation/process/wide_FIRE/API_FireState_Visualization.java:350-353 | two runs of requests paint the first run's rectangles, then the second's |
| CellStore.FillsOfSnoc | src/main/scala/scalation/simulation/process/wide_FIRE/API_FireState_Visualization.java:350-353 | one more request adds its own rectangle, if any, after the earlier ones |
| CellStore.FillsOfCount | src/main/scala/scalation/simulation/process/wide_FIRE/API_FireState_Visualization.java:327-332 | requests that are not intercepted paint exactly one rectangle each |
| CellStore.AgentColorAfterAppend | src/main/scala/scalation/simulation/process/wide_FIRE/API_FireState_Visualization.java:327-330 | two runs of requests leave the agent's colour the second run leaves starting from the first run's result |
| CellStore.AgentColorAfterSnoc | src/main/scala/scalation/simulation/process/wide_FIRE/API_FireState_Visualization.java:327-330 | one more request changes preAgentCellColor exactly when the agent intercepts it, and then to its colour |
| CellStore.DefaultAgentUntouched | src/main/scala/scalation/simulation/process/wide_FIRE/API_FireState_Visualization.java:87-89 | with the agent at its initial (-1, -1), no run of requests changes preAgentCellColor |
| CellStore.ColumnFills | src/main/scala/scalation/simulation/process/wide_FIRE/API_FireState_Visualization.java:450-462 | the rectangles the inner cell loop of paint issues for one column, one per set entry in row order; `ColumnFillsCount`, `ColumnFillsComplete` and `ColumnFillsSound` state its properties |
| CellStore.Repaint | src/main/scala/scalation/simulation/process/wide_FIRE/API_FireState_Visualization.java:449-463 | the rectangles the cell loop of paint issues, column by column; `RepaintCount`, `RepaintComplete` and `RepaintSound` state its properties |
| CellStore.ColumnFillsCount | src/main/scala/scalation/simulation/process/wide_FIRE/API_FireState_Visualization.java:450-462 | the inner repaint loop paints one rectangle per set entry of its column |
| CellStore.ColumnFillsComplete | src/main/scala/scalation/simulation/process/wide_FIRE/API_FireState_Visualization.java:450-462 | every set entry of the column is repainted in its colour |
| CellStore.ColumnFillsSound | src/main/scala/scalation/simulation/process/wide_FIRE/API_FireState_Visualization.java:450-462 | every rectangle of the inner repaint loop comes from a set entry of its column |
| CellStore.RepaintCount | src/main/scala/scalation/simulation/process/wide_FIRE/API_FireState_Visualization.java:449-463 | the repaint paints one rectangle per set entry of the grid and no other |
| CellStore.RepaintComplete | src/main/scala/scalation/simulation/process/wide_FIRE/API_FireState_Visualization.java:449-463 | every set entry (i, j) is repainted in its colour at pixel (i * cellSize + 1, j * cellSize + 1) |
| CellStore.RepaintSound | src/main/scala/scalation/simulation/process/wide_FIRE/API_FireState_Visualization.java:449-463 | every rectangle of the repaint comes from a set entry of the grid |
| CellStore.RepaintRedrawsLastFill | src/main/scala/scalation/simulation/process/wide_FIRE/API_FireState_Visualization.java:456-460 | with cells of 2 pixels or more, the repaint of an entry a request wrote is the very rectangle drawCellToScale painted for that request |
| CellStore.BackgroundRowRequests | src/main/scala/scalation/simulation/process/wide_FIRE/API_FireState_Visualization.java:205-209 | the first n rounds of the inner background loop make n requests |
| CellStore.BackgroundLength | src/main/scala/scalation/simulation/process/wide_FIRE/API_FireState_Visualization.java:204-210 | the first m rounds of the outer background loop make 200 m requests |
| CellStore.BackgroundRowIs | src/main/scala/scalation/simulation/process/wide_FIRE/API_FireState_Visualization.java:205-209 | requests that are, one by one, the rounds of inner loop i form that loop's run |
| CellStore.BackgroundTarget | src/main/scala/scalation/simulation/process/wide_FIRE/API_FireState_Visualization.java:206-208 | round (i, j) of the background loop writes entry (j, BackgroundRow(i)) |
| CellStore.BackgroundRowStore | src/main/scala/scalation/simulation/process/wide_FIRE/API_FireState_Visualization.java:205-209 | the first n rounds of inner loop i set columns 0..n-1 of row BackgroundRow(i) to the background colour and leave every other entry as it was |
| CellStore.BackgroundRowsStore | src/main/scala/scalation/simulation/process/wide_FIRE/API_FireState_Visualization.java:204-210 | the first m rounds of the outer loop set exactly the rows they paint to the background colour |
| CellStore.BackgroundStore | src/main/scala/scalation/simulation/process/wide_FIRE/API_FireState_Visualization.java:204-210 | after the background loop every entry of rows 1..199 is background, and row 0 keeps what it held |
| CellStore.BackgroundFillCount | src/main/scala/scalation/simulation/process/wide_FIRE/API_FireState_Visualization.java:204-210 | the background loop paints 40000 rectangles |
| Playback.PlayTrace | src/main/scala/scalation/simulation/process/wide_FIRE/API_FireState_Visualization.java:139-159 | the while loop of visualize as its sequence of rounds, each a draw of the cursor event or a clock step; `PlaybackDrawsEach`, `PlaybackClockSteps`, `PlaybackDrawWindow`, `PlaybackTickJustified` and `PlaybackTickCount` state what it does |
| Playback.GapShrinks | src/main/scala/scalation/simulation/process/wide_FIRE/API_FireState_Visualization.java:152-153 | a clock step leaves fewer steps between the clock and the pending event, which is why the loop ends on exact reals |
| Playback.PlaybackDrawsEach | src/main/scala/scalation/simulation/process/wide_FIRE/API_FireState_Visualization.java:139-151 | the loop draws each event from the cursor on exactly once, in index order |
| Playback.PlaybackClockSteps | src/main/scala/scalation/simulation/process/wide_FIRE/API_FireState_Visualization.java:152-154 | the clock only moves forward, by exactly 100 per step: c + 100, c + 200, ... |
| Playback.PlaybackDrawWindow | src/main/scala/scalation/simulation/process/wide_FIRE/API_FireState_Visualization.java:140 | an event is drawn only at a clock c with time < c + 100, and for sorted times only once c has reached its time |
| Playback.PlaybackTickJustified | src/main/scala/scalation/simulation/process/wide_FIRE/API_FireState_Visualization.java:140-153 | at every clock step the cursor (the starting index plus the events drawn before that step) is still at an event, and that event's time is at or past the new clock |
| Playback.DrawIndicesPrefixCons | src/main/scala/scalation/simulation/process/wide_FIRE/API_FireState_Visualization.java:139-151 | the events drawn in a non-empty prefix of the trace are the first step's event, if it draws one, followed by those of the rest |
| Playback.PlaybackTickCount | src/main/scala/scalation/simulation/process/wide_FIRE/API_FireState_Visualization.java:139-158 | for sorted times the loop pauses floor((last time - start clock) / 100) times |
| Playback.PlaybackDrawRound | src/main/scala/scalation/simulation/process/wide_FIRE/API_FireState_Visualization.java:140-151 | a drawing round is the trace's step drawing the cursor event at the current clock, followed by the trace from the next event, so it leaves the pauses still to come unchanged |
| Playback.PlaybackTickRound | src/main/scala/scalation/simulation/process/wide_FIRE/API_FireState_Visualization.java:152-158 | a clock round is the trace's step to clock + 100, followed by the trace from the new clock, so it is one of the pauses still to come |
| Playback.ExamplePauses | src/main/scala/scalation/simulation/process/wide_FIRE/API_FireState_Visualization.java:135-158 | times 0, 50, 150 and 260 take two pauses, the clock going to 100 and then 200 |
| Playback.StateColor | src/main/scala/scalation/simulation/process/wide_FIRE/API_FireState_Visualization.java:144-149 | state 1 draws red, state 2 draws black, and any other state draws nothing, each as an if-and-only-if |
| Playback.EventRequestsSnoc | src/main/scala/scalation/simulation/process/wide_FIRE/API_FireState_Visualization.java:142-150 | one more event adds one drawCellToScale request if its state is 1 or 2, and none otherwise |
| Playback.EventTarget | src/main/scala/scalation/simulation/process/wide_FIRE/API_FireState_Visualization.java:142-145 | in the default geometry a drawn event writes the entry (x, 200 - y), both clamped to 0..199 |
| Playback.PlaybackColors | src/main/scala/scalation/simulation/process/wide_FIRE/API_FireState_Visualization.java:139-151 | for feeds whose y values are all at least MinInt32 + 201, after the playback each entry holds the colour of the last red or black event meant for it, and keeps its colour when there is none |
| Playback.PlaybackFillCount | src/main/scala/scalation/simulation/process/wide_FIRE/API_FireState_Visualization.java:144-149 | the playback makes one request, and paints one rectangle, per event of state 1 or 2 |
| View.FireStateView.constructor | src/main/scala/scalation/simulation/process/wide_FIRE/API_FireState_Visualization.java:94-97 | a new frame has 3-pixel cells on a 200 by 200 grid with the agent at (-1, -1); every entry is background except row 0, which is null; the panel holds the background loop's rectangles; the title is the initial one, and there are no pauses and no playback rounds |
| View.FireStateView.CreateGridView | src/main/scala/scalation/simulation/process/wide_FIRE/API_FireState_Visualization.java:164-211 | installs 3-pixel cells and a fresh empty 200 by 200 grid, then shows the background loop's requests drawn on it; the agent and the title are unchanged |
| View.FireStateView.BackgroundShown | src/main/scala/scalation/simulation/process/wide_FIRE/API_FireState_Visualization.java:204-210 | the background loop drawn on an empty grid leaves every entry of rows 1..199 background and row 0 null, with no agent colour remembered |
| View.FireStateView.SetCellSize | src/main/scala/scalation/simulation/process/wide_FIRE/API_FireState_Visualization.java:213-222 | records the size; a positive size sets both dimensions to 600 / size and installs a fresh all-null grid, and any other size keeps the grid and its dimensions; nothing else changes |
| View.FireStateView.FillCell | src/main/scala/scalation/simulation/process/wide_FIRE/API_FireState_Visualization.java:345-357 | paints one rectangle (cellSize - 1 wide when the grid lines show), then writes exactly the entry (px / cellSize, py / cellSize) and no other; it throws Arithmetic for cell size 0 and ArrayIndexOutOfBounds outside the grid, writing nothing |
| View.FireStateView.DrawCellToScale | src/main/scala/scalation/simulation/process/wide_FIRE/API_FireState_Visualization.java:321-333 | a request on the agent's pixel only sets preAgentCellColor; any other paints its rectangle and writes its target entry; nothing else changes |
| View.FireStateView.Draw | src/main/scala/scalation/simulation/process/wide_FIRE/API_FireState_Visualization.java:321-333 | one more request keeps the frame showing the requests drawn so far, now with this one |
| View.FireStateView.PaintBackground | src/main/scala/scalation/simulation/process/wide_FIRE/API_FireState_Visualization.java:201-210 | the nested background loop shows all 40000 background requests, row by row, on the grid it started from |
| View.FireStateView.PaintBackgroundRow | src/main/scala/scalation/simulation/process/wide_FIRE/API_FireState_Visualization.java:205-209 | inner background loop i adds its 200 requests to those already shown |
| View.FireStateView.PlayEvents | src/main/scala/scalation/simulation/process/wide_FIRE/API_FireState_Visualization.java:135-160 | the playback loop takes exactly the rounds of `PlayTrace`, draws and clock steps interleaved in its order; it shows the requests of the played events, pauses as often as the trace steps the clock, and ends with the title on the last event's time truncated to an `int` |
| View.FireStateView.StepClock | src/main/scala/scalation/simulation/process/wide_FIRE/API_FireState_Visualization.java:152-158 | a clock round steps the clock by 100, shows it in the title, pauses once and logs that step; the cells, the fills and the agent colour are unchanged |
| View.FireStateView.DrawEvent | src/main/scala/scalation/simulation/process/wide_FIRE/API_FireState_Visualization.java:140-151 | a drawing round adds the event's request (red for state 1, black for state 2, none otherwise) to those shown and logs the draw of that event at the current clock; the title and the pauses are unchanged |
| View.FireStateView.Play | src/main/scala/scalation/simulation/process/wide_FIRE/API_FireState_Visualization.java:135-160 | with no pieces `time[0]` throws; with pieces but no events `time[-1]` throws after the title is set to `time[0]`; otherwise the events are played, taking the rounds of their trace, and the call completes |
| View.FireStateView.Visualize | src/main/scala/scalation/simulation/process/wide_FIRE/API_FireState_Visualization.java:102-162 | `visualize` throws the parser's exception, throws ArrayIndexOutOfBounds when there is nothing to play (title 0 when there were pieces), and otherwise completes with the final title, the pauses of the trace and its rounds in order; the frame shows the requests of the parsed events |
| View.FireStateView.PaintCells | src/main/scala/scalation/simulation/process/wide_FIRE/API_FireState_Visualization.java:449-463 | the cell loop of paint, which changes nothing, paints exactly `Repaint` of the grid's contents, so repeating it paints the same rectangles |
| View.FireStateView.PaintColumn | src/main/scala/scalation/simulation/process/wide_FIRE/API_FireState_Visualization.java:450-462 | inner round i of the cell loop paints the rectangles of column i's set entries, in row order |
| View.FireStateView.PreferredSize | src/main/scala/scalation/simulation/process/wide_FIRE/API_FireState_Visualization.java:417-421 | the preferred size is `spaceWidth * cellSize` by `spaceHeight * cellSize` in `int` arithmetic; with a positive cell size and the dimensions setCellSize gives, it fits the 600-pixel range and falls short of it by less than one cell |
| View.RangeFits | src/main/scala/scalation/simulation/process/wide_FIRE/API_FireState_Visualization.java:171 | the 600-pixel range divided into cells and multiplied back loses less than one cell |

## Left out

- `connectAndRunTest.java` is not part of this model. It only sends HTTP requests to a
  remote server.
- Swing and AWT plumbing is left out because it is library code the model cannot see. This
  covers the frame and panel layout, borders, `setVisible`, `setLocation`,
  `adjustSizeToHoldGridPanel` (the frame size from the insets) and `getGraphics`.
  Rectangles are recorded as `Fill` values, with the colour set just before each one.
- The axes, the labels and the 0,0 box that `paint` draws (lines 433-446) are left out.
  So are fonts and `drawString` (lines 383-400). They draw nothing on the cell grid.
- `SwingUtilities.invokeLater`: each submitted `fillCell` is applied at once, in submission
  order. An exception `fillCell` throws happens on the Swing thread, so it does not reach
  `drawCellToScale`.
- `Thread.sleep(100)` is counted in `pauses`. Wall-clock time is not modelled.
- The console output of `visualize` (`println`) is left out.
- The title is the datatype `Title` (initial, running clock, final `int` time). The text
  `setTitle` formats is not modelled.
- Floating point: times are exact reals, and clock sums do not round.
- JavaLang.ParseDouble: accepts plain decimal notation only, after trimming and dropping a
  type suffix. Exponent forms, hexadecimal, `NaN` and `Infinity` are rejected, and the
  value is the exact number written, not the nearest `double` (or `float` for a suffix f
  or F).
- JavaLang.ParseInt: accepts only the ASCII digits 0-9. Java's `Character.digit` also
  accepts the decimal digits of other scripts, such as Arabic-Indic ones, and the model
  rejects those.
- JavaLang.IndexOf and JavaLang.Substring: positions count Dafny characters (Unicode
  scalar values). Java counts UTF-16 code units, so the fixed offsets differ for a feed
  holding characters outside the Basic Multilingual Plane.
- `setXScale` and `setYScale` are left out. The scale factors they set are not read by
  `scaleX` or `scaleY`.
- `xRange` and `yRange` are fixed at 600. `createGridView` sets them to that value before
  anything reads them.
- The colour of the HSB background is the constant `Background`.
- The Java `grid` field is `null` until `createGridView` allocates it. The model's fields
  start at the field initialisers, with a 40 by 40 grid whose contents are never read
  before `createGridView` replaces it.
- The parallel arrays `cellX`, `cellY`, `time` and `state` are one array of `BurnEvent`
  records. They are allocated, filled and read together.
- The `double` arguments of `scaleX`, `scaleY` and `drawCellToScale` are taken to hold
  integers. Every caller passes an `int` value.
- View.FireStateView.Visualize: the pauses are stated as the trace's clock steps.
  Playback.PlaybackTickCount gives their closed-form number only for sorted times.
- View.FireStateView.Visualize: the model completes for all times, on exact reals. The
  Java loop does not end for very large times: once the clock reaches 2^60,
  `currentTime + 100` rounds back to `currentTime` in `double` arithmetic, so neither
  the draw test nor the clock step makes progress. A feed with
  the single BurnCell time 1152921504606846976 plays forever, and so does a time of
  `Infinity`.
