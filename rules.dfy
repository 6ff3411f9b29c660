/** The rules of the snake engine as pure functions: turning, moving the head,
    sliding the body, the free cells food may be placed on, the step counter and
    the observation layout. The classes of module Environment are proved
    against these definitions. */
module Rules {

  /** A grid cell (x, y); the engine stores positions as integer pairs. */
  type Cell = (int, int)

  /** Action codes accepted by a step. */
  const NOP: int := 0
  const LEFT: int := 1
  const RIGHT: int := 2
  const UP: int := 3
  const DOWN: int := 4

  /** The direction the snake is heading in. */
  datatype Dir = DirLeft | DirRight | DirUp | DirDown

  predicate InGrid(c: Cell, width: int, height: int) {
    0 <= c.0 < width && 0 <= c.1 < height
  }

  function Opposite(d: Dir): Dir {
    match d
    case DirLeft => DirRight
    case DirRight => DirLeft
    case DirUp => DirDown
    case DirDown => DirUp
  }

  /** The direction an action code asks for. */
  function Requested(action: int): Dir
    requires LEFT <= action <= DOWN
  {
    if action == LEFT then DirLeft
    else if action == RIGHT then DirRight
    else if action == UP then DirUp
    else DirDown
  }

  /** The direction after a step's action has been applied: the four guarded
      assignments, in the order the engine performs them. A request is granted
      unless it is the exact opposite of the current direction; NOP and any
      code outside LEFT..DOWN leave the direction alone. */
  function Turn(dir: Dir, action: int): (d: Dir)
    ensures d != Opposite(dir)
    ensures LEFT <= action <= DOWN && Requested(action) != Opposite(dir) ==> d == Requested(action)
    ensures !(LEFT <= action <= DOWN) || Requested(action) == Opposite(dir) ==> d == dir
  {
    var d1 := if action == LEFT && dir != DirRight then DirLeft else dir;
    var d2 := if action == RIGHT && d1 != DirLeft then DirRight else d1;
    var d3 := if action == UP && d2 != DirDown then DirUp else d2;
    if action == DOWN && d3 != DirUp then DirDown else d3
  }

  /** Unit displacement of a direction; y grows downwards. */
  function Dx(d: Dir): int {
    if d == DirLeft then -1 else if d == DirRight then 1 else 0
  }

  function Dy(d: Dir): int {
    if d == DirUp then -1 else if d == DirDown then 1 else 0
  }

  /** The cell a coordinate one step outside [0, n) wraps around to. */
  function WrapAround(v: int, n: int): int {
    if v < 0 then n - 1 else if v >= n then 0 else v
  }

  /** Outcome of moving the head: the new position and whether the move
      stayed alive. */
  datatype Move = Move(x: int, y: int, survive: bool)

  /** One head move: the moved coordinate is reduced modulo the grid size on
      its axis, and without wrap-around leaving the grid is fatal. */
  function Advance(x: int, y: int, d: Dir, width: int, height: int, wrap: bool): (m: Move)
    requires 0 < width && 0 < height
    ensures InGrid((x, y), width, height) ==> InGrid((m.x, m.y), width, height)
    ensures InGrid((x, y), width, height) ==>
              m.x == WrapAround(x + Dx(d), width) && m.y == WrapAround(y + Dy(d), height)
    ensures InGrid((x, y), width, height) ==>
              (m.survive <==> wrap || InGrid((x + Dx(d), y + Dy(d)), width, height))
    ensures InGrid((x + Dx(d), y + Dy(d)), width, height) ==> (m.x, m.y) == (x + Dx(d), y + Dy(d))
  {
    ModOneOff(x - 1, width);
    ModOneOff(x + 1, width);
    ModOneOff(y - 1, height);
    ModOneOff(y + 1, height);
    match d
    case DirLeft => Move((x - 1) % width, y, !(!wrap && x - 1 < 0))
    case DirRight => Move((x + 1) % width, y, !(!wrap && x + 1 >= width))
    case DirUp => Move(x, (y - 1) % height, !(!wrap && y - 1 < 0))
    case DirDown => Move(x, (y + 1) % height, !(!wrap && y + 1 >= height))
  }

  lemma MulMonotone(d: int, n: int)
    requires 1 <= d && 0 < n
    ensures d * n >= n
  {
  }

  /** Euclidean division has a unique remainder. */
  lemma ModUnique(k: int, n: int, q: int, r: int)
    requires 0 < n && k == q * n + r && 0 <= r < n
    ensures k % n == r
  {
    var q', r' := k / n, k % n;
    assert k == q' * n + r' && 0 <= r' < n;
    var d := q - q';
    assert d * n == q * n - q' * n;
    assert d * n == r' - r;
    if d >= 1 {
      MulMonotone(d, n);
    } else if d <= -1 {
      MulMonotone(-d, n);
    }
  }

  /** Reducing a coordinate at most one step outside [0, n) wraps it around. */
  lemma ModOneOff(v: int, n: int)
    requires 0 < n
    ensures -1 <= v <= n ==> v % n == WrapAround(v, n)
  {
    if v == -1 {
      ModUnique(v, n, -1, n - 1);
    } else if 0 <= v < n {
      ModUnique(v, n, 0, v);
    } else if v == n {
      ModUnique(v, n, 1, 0);
    }
  }

  function Min(a: int, b: int): int {
    if a <= b then a else b
  }

  /** The body after one tick: the last cell is dropped when the body has
      reached the target length, then the new head goes in front. */
  function Slide(body: seq<Cell>, len: int, head: Cell): (r: seq<Cell>)
    requires |body| >= len ==> |body| > 0
    ensures 1 <= |r| <= |body| + 1
    ensures r[0] == head
    ensures r[1..] == body[..|r| - 1]
    ensures |body| <= len ==> |r| == Min(|body| + 1, len)
    ensures 1 <= |body| <= len ==> 1 <= |r| <= len
  {
    var kept := if |body| >= len then body[..|body| - 1] else body;
    [head] + kept
  }

  /** A stored food cell stays off the body when the new head misses it. */
  lemma FoodStaysOffBody(body: seq<Cell>, len: int, head: Cell, food: Cell)
    requires |body| >= len ==> |body| > 0
    requires food !in body && food != head
    ensures food !in Slide(body, len, head)
  {
  }

  /** Moving onto the cell the tail end leaves in the same tick is not a
      collision: once the body is at full length that cell is dropped before
      the head is compared with the rest of the body. */
  lemma ChasingTheTailIsSafe(body: seq<Cell>, len: int)
    requires 1 <= len <= |body|
    requires body[|body| - 1] !in body[..|body| - 1]
    ensures body[|body| - 1] !in Slide(body, len, body[|body| - 1])[1..]
  {
  }

  function Reverse(s: seq<Cell>): (r: seq<Cell>)
    ensures |r| == |s|
  {
    if s == [] then [] else Reverse(s[1..]) + [s[0]]
  }

  /** The body after the head has visited `heads` in order, length fixed. */
  function SlideAll(body: seq<Cell>, len: int, heads: seq<Cell>): seq<Cell>
    requires 1 <= |body| <= len
    decreases |heads|
  {
    if heads == [] then body
    else SlideAll(Slide(body, len, heads[0]), len, heads[1..])
  }

  lemma SlideIsPrefix(body: seq<Cell>, len: int, head: Cell)
    requires 1 <= |body| <= len
    ensures Slide(body, len, head) == ([head] + body)[..Min(|body| + 1, len)]
  {
  }

  lemma PrefixOfConcat(a: seq<Cell>, h: Cell, body: seq<Cell>, next: seq<Cell>, m: int, k: int)
    requires 0 <= m <= |body| + 1 && next == ([h] + body)[..m] && 0 <= k <= |a| + m
    ensures (a + next)[..k] == (a + [h] + body)[..k]
  {
  }

  /** The inductive step of SlideAllIsRecentHistory: if the claim holds
      after the first move, it holds before it. */
  lemma HistoryStep(body: seq<Cell>, len: int, heads: seq<Cell>)
    requires 1 <= |body| <= len && heads != []
    requires var next := Slide(body, len, heads[0]);
             SlideAll(next, len, heads[1..]) ==
               (Reverse(heads[1..]) + next)[..Min(|next| + |heads| - 1, len)]
    ensures SlideAll(body, len, heads) == (Reverse(heads) + body)[..Min(|body| + |heads|, len)]
  {
    var h, rest := heads[0], heads[1..];
    var next := Slide(body, len, h);
    var m1 := Min(|body| + 1, len);
    var k := Min(|body| + |heads|, len);
    SlideIsPrefix(body, len, h);
    assert Min(|next| + |heads| - 1, len) == k;
    assert Reverse(heads) == Reverse(rest) + [h];
    PrefixOfConcat(Reverse(rest), h, body, next, m1, k);
  }

  /** While the target length stays fixed, the body after a sequence of
      moves is the head positions, newest first, followed by the old body,
      cut at min(initial length + moves, target length): a body shorter
      than the target grows one cell per tick until it reaches it. */
  lemma {:induction false} SlideAllIsRecentHistory(body: seq<Cell>, len: int, heads: seq<Cell>)
    requires 1 <= |body| <= len
    ensures SlideAll(body, len, heads) == (Reverse(heads) + body)[..Min(|body| + |heads|, len)]
    decreases |heads|
  {
    if heads != [] {
      SlideAllIsRecentHistory(Slide(body, len, heads[0]), len, heads[1..]);
      HistoryStep(body, len, heads);
    }
  }

  /** After n ticks with a fixed target length the body holds
      min(|body| + n, len) cells. */
  lemma BodyLengthAfter(body: seq<Cell>, len: int, heads: seq<Cell>)
    requires 1 <= |body| <= len
    ensures |SlideAll(body, len, heads)| == Min(|body| + |heads|, len)
  {
    SlideAllIsRecentHistory(body, len, heads);
  }

  /** The step counter after one tick: it is incremented and reset to 0 on
      reaching the timeout. */
  function NextCount(steps: int, timeout: int): (r: int)
    requires 0 <= steps < timeout
    ensures 0 <= r < timeout
    ensures r == (steps + 1) % timeout
  {
    ModOneOff(steps + 1, timeout);
    if steps + 1 >= timeout then 0 else steps + 1
  }

  /** Whether the tick that leaves `steps` ends the episode by timeout. */
  predicate TimesOut(steps: int, timeout: int) {
    steps + 1 >= timeout
  }

  /** The step counter after n ticks of an episode started by a reset. */
  function CountAfter(n: nat, timeout: int): (r: int)
    requires 0 < timeout
    ensures 0 <= r < timeout
  {
    if n == 0 then 0 else NextCount(CountAfter(n - 1, timeout), timeout)
  }

  /** The counter is the number of ticks modulo the timeout, and tick n
      (counting from 1) is ended by the timeout exactly when n is a multiple
      of the timeout. */
  lemma {:induction false} CountAfterIsModulo(n: nat, timeout: int)
    requires 0 < timeout
    ensures CountAfter(n, timeout) == n % timeout
    ensures 0 < n ==> (TimesOut(CountAfter(n - 1, timeout), timeout) <==> n % timeout == 0)
  {
    if n > 0 {
      CountAfterIsModulo(n - 1, timeout);
      ModSucc(n - 1, timeout);
    }
  }

  lemma ModSucc(k: nat, t: int)
    requires 0 < t
    ensures (k + 1) % t == (k % t + 1) % t
    ensures (k + 1) % t == 0 <==> k % t + 1 == t
  {
    var q, c := k / t, k % t;
    assert k == q * t + c;
    if c + 1 < t {
      ModUnique(k + 1, t, q, c + 1);
      ModUnique(c + 1, t, 0, c + 1);
    } else {
      assert k + 1 == (q + 1) * t + 0;
      ModUnique(k + 1, t, q + 1, 0);
      ModUnique(c + 1, t, 1, 0);
    }
  }

  /** Cells (x, y') with y <= y' < width that are not in the body, in
      increasing y'. */
  function FreeInColumn(width: int, body: seq<Cell>, x: int, y: int): (free: seq<Cell>)
    ensures forall c :: c in free <==> c.0 == x && y <= c.1 < width && c !in body
    decreases width - y
  {
    if y >= width then []
    else (if (x, y) in body then [] else [(x, y)]) + FreeInColumn(width, body, x, y + 1)
  }

  /** Free cells with first coordinate from x up, column by column. */
  function FreeFrom(width: int, body: seq<Cell>, x: int): (free: seq<Cell>)
    ensures forall c :: c in free <==> x <= c.0 < width && 0 <= c.1 < width && c !in body
    decreases width - x
  {
    if x >= width then []
    else FreeInColumn(width, body, x, 0) + FreeFrom(width, body, x + 1)
  }

  /** The cells of range(width) x range(width), in lexicographic order, that
      are not on the body: the list food placement chooses from. Both axes
      use the width. */
  function FreeCells(width: int, body: seq<Cell>): (free: seq<Cell>)
    ensures forall c :: c in free <==> InGrid(c, width, width) && c !in body
  {
    FreeFrom(width, body, 0)
  }

  ghost function GridCells(width: int, height: int): set<Cell> {
    set x, y | 0 <= x < width && 0 <= y < height :: (x, y)
  }

  ghost function RowCells(width: int, y: int): set<Cell> {
    set x | 0 <= x < width :: (x, y)
  }

  lemma {:induction false} RowCardinality(width: nat, y: int)
    ensures |RowCells(width, y)| == width
  {
    if width > 0 {
      RowCardinality(width - 1, y);
      assert RowCells(width, y) == RowCells(width - 1, y) + {(width - 1, y)};
    }
  }

  /** The grid of height h + 1 is the grid of height h plus its last row. */
  lemma GridSplit(width: int, height: int)
    requires 0 < height
    ensures GridCells(width, height) == GridCells(width, height - 1) + RowCells(width, height - 1)
    ensures GridCells(width, height - 1) !! RowCells(width, height - 1)
  {
  }

  lemma {:induction false} GridCardinality(width: nat, height: nat)
    ensures |GridCells(width, height)| == width * height
  {
    if height > 0 {
      GridCardinality(width, height - 1);
      RowCardinality(width, height - 1);
      GridSplit(width, height);
      assert width * height == width * (height - 1) + width;
    }
  }

  lemma {:induction false} ElementsCardinality(s: seq<Cell>)
    ensures |set c | c in s| <= |s|
  {
    if s != [] {
      ElementsCardinality(s[1..]);
      assert (set c | c in s) == (set c | c in s[1..]) + {s[0]};
    }
  }

  lemma SubsetCardinality(a: set<Cell>, b: set<Cell>)
    requires a <= b
    ensures |a| <= |b|
  {
    assert b == a + (b - a);
  }

  /** No free cell is left only when the body covers the whole grid, which
      takes at least width * height segments. */
  lemma FullGridNeedsLongBody(width: nat, height: nat, body: seq<Cell>)
    requires forall c :: InGrid(c, width, height) ==> c in body
    ensures |body| >= width * height
  {
    var elems := set c | c in body;
    assert GridCells(width, height) <= elems;
    GridCardinality(width, height);
    SubsetCardinality(GridCells(width, height), elems);
    ElementsCardinality(body);
  }

  /** The observation of a state: three width x height layers holding 1 at
      the head, at every body cell and at the food cell respectively. */
  ghost predicate Encodes(obs: array3<int>, width: int, height: int, head: Cell, body: seq<Cell>, food: Cell)
    reads obs
  {
    obs.Length0 == 3 && obs.Length1 == width && obs.Length2 == height &&
    forall x, y :: 0 <= x < width && 0 <= y < height ==>
      obs[0, x, y] == (if (x, y) == head then 1 else 0) &&
      obs[1, x, y] == (if (x, y) in body then 1 else 0) &&
      obs[2, x, y] == (if (x, y) == food then 1 else 0)
  }

  /** An all-zero 3 x width x height observation. */
  ghost predicate Blank(obs: array3<int>, width: int, height: int)
    reads obs
  {
    obs.Length0 == 3 && obs.Length1 == width && obs.Length2 == height &&
    forall l, x, y :: 0 <= l < 3 && 0 <= x < width && 0 <= y < height ==> obs[l, x, y] == 0
  }

  /** Every entry of an encoded observation is 0 or 1. */
  lemma ObservationIsBinary(obs: array3<int>, width: int, height: int, head: Cell, body: seq<Cell>, food: Cell)
    requires Encodes(obs, width, height, head, body, food)
    ensures forall l, x, y :: 0 <= l < 3 && 0 <= x < width && 0 <= y < height ==>
              0 <= obs[l, x, y] <= 1
  {
  }
}
