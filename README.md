# Whack-a-mole: a Dafny model of the game's logic

The game draws a 20 × 16 grid over a 640 × 512 window, with cells of 32 × 32 pixels. It keeps one mole in one cell. Clicking the mole's cell moves the mole to a random other cell and advances its sprite to the next image, wrapping around. A window-close event ends the game. This project models the integer logic of `whackamole.py` and proves properties of it:

- **Coordinates** (`coordinates.dfy`). The screen and grid constants. `ScreenToGridPoint` and `GridToScreenPoint` convert between pixels and cells. Python's `int(a / b * c)` is modelled as exact integer arithmetic truncated toward zero (`TruncDiv`), which is `int()`'s rounding.
- **GridRenderer** (`grid_renderer.dfy`). `draw_grid` is modelled as the list of lines it would draw, in drawing order.
- **Moles** (`moles.dfy`). `Mole` is a class whose fields `set_pos` updates in place. `const images` is a sequence of opaque image values (the type parameter `Image`). A ghost counter `hits` counts the calls to `set_pos`. `Valid()` ties the image index to that count. `MoleState` and `AfterSetPos` are the same state and update written as values.
- **Relocation** (`relocation.dfy`). The random source is an input: the sequence of cells the sampler would draw, in order. `FirstDifferent` is the reference definition of which draw the rejection loop accepts.
- **GameLoop** (`game_loop.dfy`). `Event` is `Quit | Click(at) | Other`. `HandleFrame` defines one frame's event handling as a value, by recursion over the events. `HandleEvents` is the dispatch loop itself, a method over a `Mole` that is proved equal to `HandleFrame`.

Two points about the code shape the model:

- `Mole.__init__` accepts an empty image list (whackamole.py:29-31). Only `set_pos` (a modulo by zero, whackamole.py:43) and `draw_onto` (an IndexError, whackamole.py:34) fail on one. So the model's constructor takes any list.
- The horizontal-line loop of `draw_grid` runs over `GRID_WIDTH` (whackamole.py:50). `DrawGrid` keeps that count (see Findings).

## Model

| member | source | states |
|---|---|---|
| Coordinates.ScreenToGridPoint | whackamole.py:15-17 | A pixel on the 640 × 512 screen maps to a cell with 0 ≤ col < 20 and 0 ≤ row < 16. A pixel with non-negative coordinates lies in the 32 × 32 box of the cell it maps to. |
| Coordinates.GridToScreenPoint | whackamole.py:19-21 | The ratio-and-truncate formula gives exactly (col × CELL_WIDTH, row × CELL_HEIGHT) for every cell. A cell on the grid gives a pixel on the screen. |
| Coordinates.GridRoundTrip | whackamole.py:15-21 | Taking a cell to its corner pixel and back gives the same cell, for every cell. |
| Coordinates.ScreenToGridPointIffInCellBox | whackamole.py:15-17 | A pixel with non-negative coordinates maps to cell c if and only if it lies in c's 32 × 32 box. This covers both directions: every pixel of the box maps to c, and no pixel outside it does. |
| Coordinates.NegativePixelTruncatesToColumnZero | whackamole.py:16 | Because `int()` truncates toward zero, every pixel with -32 < x < 0 maps to column 0 although it lies outside that column's box. Rounding down would give column -1. |
| GridRenderer.DrawGrid | whackamole.py:46-51 | As written: 20 vertical lines at x = column × 32 spanning the height, then 20 horizontal lines at y = row × 32 spanning the width, in that order. |
| GridRenderer.LinesMeetCellCorners | whackamole.py:48-51 | The vertical line of a cell's column and the horizontal line of its row pass through the corner pixel that `grid_to_screen_point` gives the cell, where the sprite is drawn. |
| GridRenderer.DrawGridExtraRowsOffCanvas | whackamole.py:50-51 | The horizontal lines for rows 16 to 19 lie at y ≥ 512, on or below the bottom edge of the canvas. None of them falls on a pixel row, which runs 0 to 511. Rows 17 to 19 lie outside even the closed canvas rectangle that `OnCanvas` describes. |
| GridRenderer.DrawGridIntended | whackamole.py:46-51 | With the horizontal loop over GRID_HEIGHT, the result is 20 + 16 lines. Every line lies on the canvas, and every horizontal line is the top edge of a grid row. |
| Moles.NextImageIndex | whackamole.py:43 | The index after one hit is a valid index: one further, or 0 after the last image. |
| Moles.IndexAfterHitsIsMod | whackamole.py:26-43 | Starting from index 0 (line 26), k hits leave the image index at k mod len(images). |
| Moles.AfterSetPosConsistent | whackamole.py:41-43 | `set_pos` keeps the image index equal to (number of hits) mod len(images), strictly below len(images). |
| Moles.Mole.constructor | whackamole.py:26-31 | A new mole holds the given images and position with image index 0. An empty image list is not rejected. |
| Moles.Mole.GetPos | whackamole.py:38-39 | Returns the current position and changes nothing. |
| Moles.Mole.SetPos | whackamole.py:41-43 | Afterwards the position is p, the image index has advanced by one modulo len(images) and equals hits mod len(images), and the images are unchanged (they are a `const`). |
| Moles.Mole.DrawOnto | whackamole.py:33-36 | Blits the image at index (hits mod len(images)) with its top-left corner at (col × 32, row × 32). For a mole on the grid that corner is on the screen and maps back to the mole's cell. |
| Relocation.FirstDifferent | whackamole.py:58-62 | The index returned is the first draw that differs from `current`, or the number of draws if none does: every earlier draw equals `current`. |
| Relocation.FirstDifferentFound | whackamole.py:58-62 | Some draw differs from `current` if and only if `FirstDifferent` finds one within the draws. |
| Relocation.GetNextMoleGridPosition | whackamole.py:54-62 | Returns the first draw that differs from `current` and the number of draws taken: exactly `FirstDifferent` + 1. The result differs from `current`, and it is on the grid when every draw is. |
| GameLoop.HandleFrame | whackamole.py:82-89 | A frame only consumes draws and only adds hits. A frame with no hit leaves the mole and the draws untouched. |
| GameLoop.StopsAtFirstQuit | whackamole.py:84-86 | Events after the first Quit have no effect. The outcome is that of the events before it, with running set to false. |
| GameLoop.RunningIffNoQuit | whackamole.py:81-86 | After a frame the game is still running if and only if the frame had no Quit event. |
| GameLoop.ClickRelocatesIffOnMole | whackamole.py:87-89 | A click relocates the mole, exactly once, if and only if its cell equals the mole's position. The mole then moves to a different cell and its image index advances by one. Otherwise nothing changes. |
| GameLoop.HandleFrameAppend | whackamole.py:82-89 | A batch is handled as its first part, then, unless that part stopped at a Quit, the rest from the state the first part left. |
| GameLoop.ClickAnywhere | whackamole.py:82-89 | A click anywhere in a batch acts on the mole as the earlier events left it, exactly as a one-click frame would, and the later events continue from there. So the click rule holds for every click in the batch. |
| GameLoop.SecondClickOnOldCellMisses | whackamole.py:87-89 | Two clicks on the mole's cell in one frame relocate the mole only once: the second click finds the mole gone and changes nothing. |
| GameLoop.OtherIgnored | whackamole.py:83-89 | An event that is neither Quit nor a click changes nothing. |
| GameLoop.HandleFramePreservesInvariant | whackamole.py:82-89 | If the mole starts on the grid with a consistent image index and every draw is on the grid, the frame keeps both. |
| GameLoop.HandleEvents | whackamole.py:82-89 | The dispatch loop, with its `break` at Quit, yields exactly `HandleFrame`'s running flag, mole state and draws consumed, and keeps the mole valid. |
| GameLoop.FirstClickScenario | whackamole.py:79-89 | A new two-image mole at (0, 0) clicked at pixel (10, 10) moves off (0, 0) and shows image 1. Pixel (630, 500) is in cell (19, 15). |

## Left out

- The pygame set-up and tear-down: `pygame.init`, the display, the clock, `fill`, `flip`, `tick(60)`, `pygame.quit` and the try/finally around them (whackamole.py:73-76, 91-98). These are devices, timing and I/O.
- The outer `while running` loop over frames (whackamole.py:81, 91-96). Between event batches it only renders and waits. The model covers one frame's event handling; rendering is represented only by the values `DrawGrid` and `DrawOnto` return.
- The actual drawing in `draw_onto` and `draw_grid` (`screen.blit`, `pygame.draw.line`, the colour "black"). These are foreign rendering calls; the model keeps only their arguments.
- `load_images` (whackamole.py:65-69). This is file I/O; images are values of an opaque type parameter.
- `__get_rand_grid_position` (whackamole.py:54-56) and the uniform distribution of `random.randrange`. Each call is modelled as taking the next cell of a given sequence of draws. Probability and the expected number of draws are not modelled, and nor is the fact that `randrange` stays in range: where it matters, it is a hypothesis (`AllInGrid`).
- Moles.Mole.SetPos, Moles.Mole.DrawOnto, GameLoop.HandleFrame, GameLoop.HandleEvents: each requires a non-empty image list. For `SetPos` and `DrawOnto` this is where Python fails. `HandleFrame` and `HandleEvents` require it even for batches in which no click lands on the mole; Python would handle such a batch with no images.
- GetNextMoleGridPosition: the Python loop ends only almost surely. The model requires that some draw differs from `current`. For `HandleEvents`, it likewise requires that the given draws suffice for every relocation in the frame (`HandleFrame(...)` is `Some`).
- The floating-point rounding of `x / SCREEN_WIDTH * GRID_WIDTH` before `int()` (whackamole.py:16-17, 20-21). It is modelled as exact rational arithmetic truncated toward zero.
- The click position comes from `pygame.mouse.get_pos()` at dispatch time (whackamole.py:88). The model carries it as the click event's payload.
- Constructing the mole in `main` (whackamole.py:79) beyond the constructor itself. `FirstClickScenario` covers the mole's starting state of (0, 0) with two images.

## Findings

| source | as written | input that shows it | evidently intended | confidence | as-written member | corrected member |
|---|---|---|---|---|---|---|
| whackamole.py:50 | the horizontal-line loop runs over `range(GRID_WIDTH)`, so it draws 20 horizontal lines | rows 16 to 19 give lines at y = 512, 544, 576 and 608; the canvas is only 512 pixels high | `range(GRID_HEIGHT)`: 16 horizontal lines, all on the canvas | high on the count; no visible effect, because the extra lines fall off the canvas; not executed | GridRenderer.DrawGrid, with GridRenderer.DrawGridExtraRowsOffCanvas | GridRenderer.DrawGridIntended |
