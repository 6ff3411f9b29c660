/** Two concrete episodes on the default 9 x 9 grid without wrap-around,
    checked against the contracts of Snek alone. */
module Scenarios {
  import opened Rules
  import opened Environment

  /** From the start (4, 4) heading down, UP is a reversal and is refused:
      the snake moves down to (4, 5) and the episode goes on. */
  method ReversalRefused() {
    var env := new Snek();
    var food := (env.food.posX, env.food.posY);
    var res := env.Step(UP);
    assert env.player.dir == DirDown;
    assert (env.player.posX, env.player.posY) == (4, 5);
    assert res.Stepped? && !res.done;
    assert res.reward == (if food == (4, 5) then 1 else 0);
  }

  /** A length-1 snake at (0, 4) heading left leaves the grid on the next
      step, which ends the episode with reward -1. */
  method LeavingTheGridIsFatal(env: Snek)
    requires env.Valid() && env.width == 9 && !env.wrap
    requires env.player.posX == 0 && env.player.posY == 4
    requires env.player.dir == DirLeft && env.player.len == 1
    modifies env, env.player, env.food
  {
    var res := env.Step(LEFT);
    assert res.Stepped? && res.done && res.reward == -1;
  }
}
