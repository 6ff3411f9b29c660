# Snek: the grid-world snake engine in Dafny

This project models the simulation engine of a small snake game that offers a
reinforcement-learning `reset`/`step` interface (`snek/environment.py`). A
`Snek` environment owns a 9 x 9 grid without wrap-around, a `Player` and a
`Food` cell. The `Player` holds the head position, the heading, the body
(`tail`, head first) and the target length `len`. Each `step(action)` does
these things in order:

- it turns the snake unless the action asks for the exact reversal;
- it moves the head one cell and slides the body;
- it handles eating: the target length grows by one and the food moves to a
  random free cell;
- it builds the three-layer observation;
- it detects death by self-collision or by leaving the grid;
- it counts the tick against the timeout of 500 steps.

It returns the observation, the reward (-1, 0 or 1) and the done flag.
`reset` starts a new episode with a length-1 snake at the centre heading down.

The project has three files:

- `rules.dfy` (module `Rules`) holds the rules as pure functions. They cover
  turning, one head move, the body slide, the free-cell list, the step
  counter and the observation layout. The lemmas prove what these rules
  imply over many ticks: while the target length stays fixed, the body is
  the recent head history cut at min(initial length + ticks, target
  length), the counter is the tick count modulo the timeout, and an
  empty free list means the body covers the grid.
- `environment.dfy` (module `Environment`) holds the classes `Snek`, `Player`
  and `Food`. Their fields change in place as in the source. Each method's
  postcondition ties the new state to the functions of `Rules`. `Snek.Valid()`
  is the engine's invariant. `Step` preserves it whenever it returns
  `Stepped`; after `NoFreeCell` the food lies under the head, inside the
  body, and only `Reset` restores the invariant.
- `scenarios.dfy` holds two client episodes checked against the contracts
  alone.

The engine's invariant (`Snek.Valid`) says:

- the head is `tail[0]`;
- `1 <= |tail| <= len`;
- every body cell is on the grid;
- the food is on a grid cell off the body;
- `0 <= steps < timeout`.

Modelling choices:

- Actions are integer codes, as in the source (NOP 0, LEFT 1, RIGHT 2, UP 3,
  DOWN 4). Any other code leaves the heading unchanged, as the four guarded
  assignments do.
- `random.choice` is a nondeterministic choice (`:|`) from the free-cell
  list. That list is enumerated as the source does it: over
  range(width) x range(width), width on both axes. The invariant therefore
  includes `height == width`, which the hard-coded 9 x 9 grid satisfies.
- `random.choice` on an empty list raises in the source. The model gives this
  its own result, `StepResult.NoFreeCell`. The state is then left as the
  source leaves it: turned, moved, `len` raised, and the food (now under the
  head) not moved. `Step` proves this happens exactly when the body covers the
  whole grid, so only once the body has at least width * height segments.
- The player's back-reference to its environment becomes the three values
  `Tick` reads from it (width, height, wrap), passed as arguments.
- `width`, `height` and `timeout` are `const` fields set by the constructor
  (9, 9, 500), because the engine never writes them. `wrap` is a mutable
  field, initially false.
- The observation is an `array3<int>` of 0/1 entries instead of a numpy
  float array.
- `Step` is split into the helper methods `Steer` (lines 51-58), `Feed`
  (lines 61-68) and `CountTick` (lines 84-87), and into `Paint` for the encoding
  (lines 70-73). The order of the source is kept.

Three behaviours of the code that a reader might not expect; the model
follows the code:

- A tick on which food is eaten is not always `done = false`. Leaving the
  grid without wrap-around reduces the head modulo the size, so the head can
  land on the food in the same tick: the reward is then -1 and done is true.
  The timeout can also end an eating tick, and the reward then stays 1.
- `reset` returns an all-zero observation, not an encoding of the new
  state.
- The observation is built before the death check and the step counter.
  Neither of those changes what is encoded.

## Model

| member | source | states |
|---|---|---|
| Rules.Turn | snek/environment.py:51-58 | a requested direction is taken unless it is the exact opposite of the current one; NOP, other codes and refused reversals keep the heading; the result is never the reversal of the old heading |
| Rules.Advance | snek/environment.py:149-166 | from a grid cell the head moves exactly one cell in the heading when that stays on the grid, otherwise it wraps to the opposite edge; the result stays on the grid; the move survives iff wrap is on or the unreduced cell is on the grid |
| Rules.Slide | snek/environment.py:168-170 | the new head is first, the rest is a prefix of the old body, the body grows by at most one cell, reaches min(|body|+1, len), and keeps 1 <= length <= len |
| Rules.FoodStaysOffBody | snek/environment.py:61-68 | food that is off the body and not reached by the head is still off the body after the slide |
| Rules.ChasingTheTailIsSafe | snek/environment.py:76-78 | the cell the tail end vacates in a tick is not counted as a collision when the head moves onto it |
| Rules.SlideAllIsRecentHistory | snek/environment.py:168-170 | after any sequence of moves with a fixed target length the body is the most recent head positions, newest first, cut at min(initial length + moves, len) |
| Rules.BodyLengthAfter | snek/environment.py:168-170 | after n moves the body holds min(|body| + n, len) cells: growth appears one cell per tick |
| Rules.NextCount | snek/environment.py:84-87 | the counter after a tick stays in [0, timeout) and equals (steps + 1) mod timeout |
| Rules.CountAfter | snek/environment.py:84-87 | the counter after n ticks from a reset stays in [0, timeout) |
| Rules.CountAfterIsModulo | snek/environment.py:84-87 | the counter is the number of ticks since reset modulo the timeout, and tick n is ended by the timeout iff n is a multiple of the timeout |
| Rules.FreeCells | snek/environment.py:64 | the candidate list holds exactly the cells of range(width) x range(width) not on the body |
| Rules.FullGridNeedsLongBody | snek/environment.py:64-66 | an empty candidate list requires a body of at least width * height segments |
| Rules.ObservationIsBinary | snek/environment.py:70-73 | every entry of an encoded observation is 0 or 1 |
| Environment.Food.constructor | snek/environment.py:174-176 | the food sits at the given cell |
| Environment.Player.constructor | snek/environment.py:142-147 | a new player is at the start cell heading down with body [start] and target length 1 |
| Environment.Player.Tick | snek/environment.py:149-172 | head and survival as Advance gives them, body as Slide gives it, heading and target length unchanged, player invariant preserved |
| Environment.ChooseFree | snek/environment.py:64-66 | the chosen cell is on range(width) x range(width) and off the body; no cell is chosen only when the body covers all of them |
| Environment.Paint | snek/environment.py:70-73 | the blank observation gets 1 exactly at the head in layer 0, at the body cells in layer 1 and at the food in layer 2 |
| Environment.Snek.constructor | snek/environment.py:15-26 | a 9 x 9 grid, timeout 500, no wrap, counter 0, a length-1 snake at (4, 4) heading down, food on a free cell; the invariant holds |
| Environment.Snek.InitState | snek/environment.py:124-130 | a fresh 3 x width x height observation of zeros |
| Environment.Snek.Reset | snek/environment.py:132-137 | counter 0, a new length-1 snake at the centre heading down, new food on a free cell, the invariant re-established, an all-zero observation returned |
| Environment.Snek.Steer | snek/environment.py:51-58 | the heading becomes Turn of the old heading and the action |
| Environment.Snek.Feed | snek/environment.py:61-68 | eating happens iff the head is on the food; then the target length grows by exactly 1 and the food moves to a grid cell off the body, or no cell is free and the grid is covered; otherwise length and food are unchanged |
| Environment.Snek.CountTick | snek/environment.py:84-87 | the counter becomes NextCount of the old one, and the tick times out iff steps + 1 reaches the timeout |
| Environment.Snek.Step | snek/environment.py:37-89 | the whole tick: heading by Turn, head by Advance, body by Slide, length +1 iff eaten; NoFreeCell iff eaten with the grid covered; otherwise the invariant is preserved (food off the body, counter below timeout), uneaten food stays, done iff death or timeout, reward -1 on death else 1 if eaten else 0, and the observation encodes the new head, body and food |

## Left out

- Rendering (`render`, `draw_face`), pygame initialisation and the event pump with its `sys.exit`: user interface and operating-system I/O.
- The gym base class, the `action_space` and `observation_space` objects, `render_enabled`, `scale`, `framerate` and the colours: library wrappers and drawing parameters with no engine logic.
- The empty `info` dictionary that `step` returns alongside the observation, reward and done flag.
- The random source itself: food placement is a nondeterministic choice among the free cells, so no claim is made about uniformity.
- The numpy float dtype of the observation: entries are integers 0 and 1.
- `main.py` and `show.py`: driver loops and model loading with no engine logic.
- Rules.Advance: its contract characterises the move only from a cell on the grid, the only case the engine reaches; from other cells the function still computes what the source computes, but nothing is proved about it.
- Environment.Player.Tick: requires a positive width and height. With a size of 0 the source fails with a division by zero; with a negative size Python's `%` returns a value and raises nothing, and the model does not cover that case. The engine only calls it with its 9 x 9 grid.
- Rules.Slide / Environment.Player.Tick: require a non-empty body once the body has reached the target length, so the case where `self.tail.pop()` on an empty deque raises IndexError (snek/environment.py:168-169) is not covered; the engine cannot reach it, because `Player.Valid` keeps the body at one cell or more.
- Environment.Snek.Reset: requires 2 <= width == height and a positive timeout, which the constructor's constants meet; on a 1 x 1 grid the source's food choice would fail, and the model does not cover that case.
