/** The snake environment: a Snek game owns a Player (head, direction, body,
    target length) and a Food cell, and advances them one tick per Step. */
module Environment {
  import opened Rules

  /** The food cell; Step moves it in place when it is eaten. */
  class Food {
    var posX: int
    var posY: int

    constructor (pos: Cell)
      ensures posX == pos.0 && posY == pos.1
    {
      posX, posY := pos.0, pos.1;
    }
  }

  /** The snake: head position, heading, body cells head first (the head is
      the body's first cell) and the length the body grows towards. */
  class Player {
    var posX: int
    var posY: int
    var dir: Dir
    var tail: seq<Cell>
    var len: int

    ghost predicate Valid()
      reads this
    {
      1 <= |tail| <= len && tail[0] == (posX, posY)
    }

    constructor (start: Cell)
      ensures Valid()
      ensures posX == start.0 && posY == start.1 && dir == DirDown
      ensures tail == [start] && len == 1
    {
      posX, posY := start.0, start.1;
      dir := DirDown;
      tail := [start];
      len := 1;
    }

    /** Moves the head one cell in the current direction and slides the
        body; reports whether the move stayed alive. The grid size and the
        wrap flag are those of the environment the player belongs to. */
    method Tick(width: int, height: int, wrap: bool) returns (survive: bool)
      requires 0 < width && 0 < height
      requires |tail| >= len ==> |tail| > 0
      modifies this`posX, this`posY, this`tail
      ensures var m := Advance(old(posX), old(posY), dir, width, height, wrap);
              posX == m.x && posY == m.y && survive == m.survive
      ensures tail == Slide(old(tail), len, (posX, posY))
      ensures old(Valid()) ==> Valid()
    {
      survive := true;
      if dir == DirLeft {
        if !wrap && posX - 1 < 0 {
          survive := false;
        }
        posX := (posX - 1) % width;
      }
      if dir == DirRight {
        if !wrap && posX + 1 >= width {
          survive := false;
        }
        posX := (posX + 1) % width;
      }
      if dir == DirUp {
        if !wrap && posY - 1 < 0 {
          survive := false;
        }
        posY := (posY - 1) % height;
      }
      if dir == DirDown {
        if !wrap && posY + 1 >= height {
          survive := false;
        }
        posY := (posY + 1) % height;
      }

      if |tail| >= len {
        tail := tail[..|tail| - 1];
      }
      tail := [(posX, posY)] + tail;
    }
  }

  /** What a step returns: the observation, reward and done flag, or the
      failure of choosing a food cell when no cell is free. */
  datatype StepResult =
    | Stepped(obs: array3<int>, reward: int, done: bool)
    | NoFreeCell

  /** A uniformly random choice among the free cells, as a nondeterministic
      one: some cell of range(width) x range(width) off the body, or none
      when the body covers all of them. */
  method ChooseFree(width: int, body: seq<Cell>) returns (found: bool, pos: Cell)
    ensures found ==> InGrid(pos, width, width) && pos !in body
    ensures !found ==> forall c :: InGrid(c, width, width) ==> c in body
  {
    var free := FreeCells(width, body);
    if free == [] {
      return false, (0, 0);
    }
    assert free[0] in free;
    pos :| pos in free;
    found := true;
  }

  /** Marks the head, the body cells and the food cell in a blank
      observation. */
  method Paint(state: array3<int>, head: Cell, body: seq<Cell>, food: Cell)
    requires Blank(state, state.Length1, state.Length2)
    requires InGrid(head, state.Length1, state.Length2)
    requires InGrid(food, state.Length1, state.Length2)
    requires forall c :: c in body ==> InGrid(c, state.Length1, state.Length2)
    modifies state
    ensures Encodes(state, state.Length1, state.Length2, head, body, food)
  {
    var width, height := state.Length1, state.Length2;
    state[0, head.0, head.1] := 1;
    var i := 0;
    while i < |body|
      invariant 0 <= i <= |body|
      invariant forall x, y :: 0 <= x < width && 0 <= y < height ==>
                  state[0, x, y] == (if (x, y) == head then 1 else 0) &&
                  state[1, x, y] == (if (x, y) in body[..i] then 1 else 0) &&
                  state[2, x, y] == 0
    {
      var pos := body[i];
      assert pos in body;
      state[1, pos.0, pos.1] := 1;
      assert body[..i + 1] == body[..i] + [pos];
      i := i + 1;
    }
    assert body[..i] == body;
    state[2, food.0, food.1] := 1;
  }

  class Snek {
    const width: int
    const height: int
    const timeout: int
    var wrap: bool
    var steps: int
    var player: Player
    var food: Food

    /** The engine's invariant: the body lies on the grid, starts at the head
        and is no longer than the target length, the food is on a grid cell
        off the body, and the counter is below the timeout. */
    ghost predicate Valid()
      reads this, player, food
    {
      2 <= width && height == width && 0 < timeout &&
      0 <= steps < timeout &&
      player.Valid() &&
      (forall c :: c in player.tail ==> InGrid(c, width, height)) &&
      InGrid((food.posX, food.posY), width, height) &&
      (food.posX, food.posY) !in player.tail
    }

    constructor ()
      ensures Valid()
      ensures width == 9 && height == 9 && timeout == 500 && !wrap && steps == 0
      ensures fresh(player) && fresh(food)
      ensures player.tail == [(4, 4)] && player.dir == DirDown && player.len == 1
    {
      width := 9;
      height := 9;
      var p := new Player((9 / 2, 9 / 2));
      player := p;
      steps := 0;
      timeout := 500;
      assert InGrid((0, 0), 9, 9) && (0, 0) !in p.tail;
      var found, pos := ChooseFree(9, p.tail);
      wrap := false;
      food := new Food(pos);
    }

    /** A fresh all-zero observation. */
    method InitState() returns (state: array3<int>)
      requires 0 <= width && 0 <= height
      ensures fresh(state) && Blank(state, width, height)
    {
      state := new int[3, width, height]((l, x, y) => 0);
    }

    /** Starts a new episode: counter at 0, a length-1 snake at the centre
        heading down, food on a free cell; the observation returned is the
        blank one. */
    method Reset() returns (state: array3<int>)
      requires 2 <= width && height == width && 0 < timeout
      modifies this
      ensures Valid()
      ensures steps == 0 && wrap == old(wrap) && fresh(player) && fresh(food)
      ensures player.posX == width / 2 && player.posY == height / 2
      ensures player.dir == DirDown && player.tail == [(width / 2, height / 2)] && player.len == 1
      ensures fresh(state) && Blank(state, width, height)
    {
      steps := 0;
      player := new Player((width / 2, height / 2));
      assert InGrid((0, 0), width, width) && (0, 0) !in player.tail;
      var found, pos := ChooseFree(width, player.tail);
      food := new Food(pos);
      state := InitState();
    }

    /** Applies an action to the heading, refusing a reversal. */
    method Steer(action: int)
      modifies player`dir
      ensures player.dir == Turn(old(player.dir), action)
    {
      if action == LEFT && player.dir != DirRight {
        player.dir := DirLeft;
      }
      if action == RIGHT && player.dir != DirLeft {
        player.dir := DirRight;
      }
      if action == UP && player.dir != DirDown {
        player.dir := DirUp;
      }
      if action == DOWN && player.dir != DirUp {
        player.dir := DirDown;
      }
    }

    /** Eating: when the head is on the food the target length grows by one
        and the food moves to a free cell, if any is left. */
    method Feed() returns (ate: bool, placed: bool)
      modifies player`len, food
      ensures ate <==> (player.posX, player.posY) == old((food.posX, food.posY))
      ensures player.len == old(player.len) + (if ate then 1 else 0)
      ensures !ate ==> placed && (food.posX, food.posY) == old((food.posX, food.posY))
      ensures ate && placed ==>
                InGrid((food.posX, food.posY), width, width) && (food.posX, food.posY) !in player.tail
      ensures ate && !placed ==>
                (food.posX, food.posY) == old((food.posX, food.posY)) &&
                forall c :: InGrid(c, width, width) ==> c in player.tail
    {
      ate, placed := false, true;
      if player.posX == food.posX && player.posY == food.posY {
        ate := true;
        player.len := player.len + 1;
        var found, pos := ChooseFree(width, player.tail);
        if !found {
          return ate, false;
        }
        food.posX, food.posY := pos.0, pos.1;
      }
    }

    /** Counts the tick; reaching the timeout resets the counter and ends
        the episode. */
    method CountTick() returns (timedOut: bool)
      requires 0 <= steps < timeout
      modifies this`steps
      ensures timedOut == TimesOut(old(steps), timeout)
      ensures steps == NextCount(old(steps), timeout)
    {
      timedOut := false;
      steps := steps + 1;
      if steps >= timeout {
        steps := 0;
        timedOut := true;
      }
    }

    /** One tick of the game for an action code. */
    method Step(action: int) returns (res: StepResult)
      requires Valid()
      modifies this, player, food
      ensures player == old(player) && food == old(food) && wrap == old(wrap)
      ensures player.dir == Turn(old(player.dir), action)
      ensures var m := Advance(old(player.posX), old(player.posY), player.dir, width, height, wrap);
              player.posX == m.x && player.posY == m.y &&
              player.tail == Slide(old(player.tail), old(player.len), (m.x, m.y))
      ensures var ate := (player.posX, player.posY) == old((food.posX, food.posY));
              player.len == old(player.len) + (if ate then 1 else 0)
      // The choice of a food cell fails exactly when the body covers the grid.
      ensures var ate := (player.posX, player.posY) == old((food.posX, food.posY));
              res.NoFreeCell? <==> ate && forall c :: InGrid(c, width, height) ==> c in player.tail
      ensures res.NoFreeCell? ==>
                |player.tail| >= width * height && steps == old(steps) &&
                (food.posX, food.posY) == old((food.posX, food.posY))
      ensures res.Stepped? ==> Valid() && fresh(res.obs)
      ensures res.Stepped? ==> steps == NextCount(old(steps), timeout)
      // Food stays put unless eaten; an eaten food moves to some free cell.
      ensures var ate := (player.posX, player.posY) == old((food.posX, food.posY));
              res.Stepped? && !ate ==> (food.posX, food.posY) == old((food.posX, food.posY))
      ensures var head := (player.posX, player.posY);
              var ate := head == old((food.posX, food.posY));
              var died := head in player.tail[1..] ||
                          !Advance(old(player.posX), old(player.posY), player.dir, width, height, wrap).survive;
              res.Stepped? ==>
                (res.done <==> died || TimesOut(old(steps), timeout)) &&
                res.reward == (if died then -1 else if ate then 1 else 0)
      ensures res.Stepped? ==>
                Encodes(res.obs, width, height, (player.posX, player.posY), player.tail,
                        (food.posX, food.posY))
    {
      var state := InitState();
      var reward := 0;
      var done := false;

      Steer(action);
      var survive := player.Tick(width, height, wrap);
      var ate, placed := Feed();
      if ate && !placed {
        FullGridNeedsLongBody(width, height, player.tail);
        return NoFreeCell;
      }
      if ate {
        reward := 1;
      }

      Paint(state, (player.posX, player.posY), player.tail, (food.posX, food.posY));

      if (player.posX, player.posY) in player.tail[1..] {
        reward := -1;
        done := true;
      }

      if !survive {
        reward := -1;
        done := true;
      }

      var timedOut := CountTick();
      if timedOut {
        done := true;
      }

      return Stepped(state, reward, done);
    }
  }
}
