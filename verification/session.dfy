/** The state held by the game's load-time closure, as one immutable record,
    and the transitions that change it: the start, pause, restart and
    play-again buttons, the keydown handler, and the animation frames. */
module Session {
  import opened Keys
  import opened Entities
  import opened Update

  /** `width` and `height` are the canvas size, fixed for the session.
      `loops` counts the animation-frame chains running: every start
      schedules `gameLoop`, which reschedules itself forever, and nothing
      ever cancels a chain. */
  datatype Game = Game(width: int, height: int, started: bool, paused: bool,
                       p1: Player, p2: Player, loops: nat)

  /** Both players where they were created, with whatever bullets they own. */
  predicate AtHome(g: Game) {
    && g.p1 == HomePlayer1(g.width, g.height, g.p1.bullets)
    && g.p2 == HomePlayer2(g.width, g.height, g.p2.bullets)
  }

  /** A bullet as `shoot` made it for `p`, wherever it has travelled since. */
  predicate FiredBy(b: Bullet, p: Player) {
    b.y == p.y && b.radius == BulletRadius && b.speed == BulletSpeed && b.direction == Direction(p.id)
  }

  predicate BulletsOk(p: Player, width: int) {
    forall i :: 0 <= i < |p.bullets| ==> FiredBy(p.bullets[i], p) && OnScreen(p.bullets[i], width)
  }

  /** What holds of every state the game can reach on a canvas at least 120
      wide: players never leave their places, every bullet is one its owner
      fired and lies on screen, and before a start (or after a restart)
      nothing is paused and no bullet exists. */
  predicate Inv(g: Game) {
    && AtHome(g)
    && BulletsOk(g.p1, g.width)
    && BulletsOk(g.p2, g.width)
    && (!g.started ==> !g.paused && g.p1.bullets == [] && g.p2.bullets == [])
  }

  /** The state when the page has loaded. */
  function Init(width: int, height: int): (g: Game)
    ensures !g.started && !g.paused && g.loops == 0
    ensures g.width == width && g.height == height
    ensures Inv(g)
  {
    Game(width, height, false, false, HomePlayer1(width, height, []), HomePlayer2(width, height, []), 0)
  }

  /** `startGame`: the game runs and one more frame chain is scheduled;
      `paused` is left as it was. */
  function StartGame(g: Game): (r: Game)
    ensures r.started && r.loops == g.loops + 1
    ensures r.(started := g.started, loops := g.loops) == g
  {
    g.(started := true, loops := g.loops + 1)
  }

  /** `togglePause`: nothing before the game has started, otherwise flips
      `paused` and nothing else. */
  function TogglePause(g: Game): (r: Game)
    ensures !g.started ==> r == g
    ensures g.started ==> r.paused == !g.paused && r.(paused := g.paused) == g
  {
    if !g.started then g else g.(paused := !g.paused)
  }

  /** Pausing twice is no change at all. */
  lemma TogglePauseTwice(g: Game)
    ensures TogglePause(TogglePause(g)) == g
  {
  }

  /** `restartGame`: stopped, unpaused, every bullet gone, players back at
      their starting places; running frame chains are not cancelled. */
  function RestartGame(g: Game): (r: Game)
    ensures !r.started && !r.paused
    ensures r.p1.bullets == [] && r.p2.bullets == []
    ensures r.p1.x == 100 && r.p1.y == g.height - 50
    ensures r.p2.x == g.width - 140 && r.p2.y == g.height - 50
    ensures r.width == g.width && r.height == g.height && r.loops == g.loops
    ensures r.p1.(bullets := g.p1.bullets, x := g.p1.x, y := g.p1.y) == g.p1
    ensures r.p2.(bullets := g.p2.bullets, x := g.p2.x, y := g.p2.y) == g.p2
  {
    g.(started := false, paused := false,
       p1 := g.p1.(bullets := [], x := 100, y := g.height - 50),
       p2 := g.p2.(bullets := [], x := g.width - 140, y := g.height - 50))
  }

  /** From any reachable state a restart gives back the state the page
      loaded with, except that the frame chains keep running. */
  lemma RestartIsInit(g: Game)
    requires Inv(g)
    ensures RestartGame(g) == Init(g.width, g.height).(loops := g.loops)
  {
  }

  /** `playAgain`: a restart followed at once by a start. */
  function PlayAgain(g: Game): (r: Game)
    ensures r.started && !r.paused
    ensures r.p1.bullets == [] && r.p2.bullets == []
    ensures r.loops == g.loops + 1
  {
    StartGame(RestartGame(g))
  }

  /** The keydown handler: ignored until the game has started; then a
      lower-cased "p" toggles the pause and, independently, every player
      whose shoot key equals the lower-cased key shoots, player 1 first. */
  function KeyDown(g: Game, key: string): (r: Game)
    ensures !g.started ==> r == g
    ensures r.started == g.started && r.loops == g.loops
    ensures r.width == g.width && r.height == g.height
    ensures r.p1.(bullets := g.p1.bullets) == g.p1 && r.p2.(bullets := g.p2.bullets) == g.p2
  {
    if !g.started then g
    else
      var k := Lower(key);
      var g1 := if k == "p" then TogglePause(g) else g;
      var g2 := if k == g1.p1.shootKey then g1.(p1 := Shoot(g1.p1)) else g1;
      if k == g2.p2.shootKey then g2.(p2 := Shoot(g2.p2)) else g2
  }

  /** While the game runs, "p" or "P" flips the pause, "f" or "F" makes
      player 1 shoot and "l" or "L" makes player 2 shoot, whether or not
      the game is paused. */
  lemma KeyDownWhileStarted(g: Game, key: string)
    requires g.started && AtHome(g)
    ensures KeyDown(g, key).paused == (g.paused != (key == "p" || key == "P"))
    ensures KeyDown(g, key).p1 == if key == "f" || key == "F" then Shoot(g.p1) else g.p1
    ensures KeyDown(g, key).p2 == if key == "l" || key == "L" then Shoot(g.p2) else g.p2
  {
    LowerIsLetter(key, 'p');
    LowerIsLetter(key, 'f');
    LowerIsLetter(key, 'l');
  }

  /** `update`: one pass over each player's bullets. */
  function UpdateAll(g: Game): (r: Game)
    ensures r.(p1 := g.p1, p2 := g.p2) == g
    ensures r.p1.(bullets := g.p1.bullets) == g.p1 && r.p2.(bullets := g.p2.bullets) == g.p2
    ensures |r.p1.bullets| <= |g.p1.bullets| && |r.p2.bullets| <= |g.p2.bullets|
  {
    g.(p1 := g.p1.(bullets := Sweep(g.p1.bullets, g.width)),
       p2 := g.p2.(bullets := Sweep(g.p2.bullets, g.width)))
  }

  /** One call of `gameLoop`: the update runs only while not paused. */
  function Frame(g: Game): (r: Game)
    ensures g.paused ==> r == g
    ensures r.(p1 := g.p1, p2 := g.p2) == g
    ensures r.p1.(bullets := g.p1.bullets) == g.p1 && r.p2.(bullets := g.p2.bullets) == g.p2
  {
    if g.paused then g else UpdateAll(g)
  }

  /** `n` calls of `gameLoop` in a row. */
  function Frames(g: Game, n: nat): (r: Game)
    ensures g.paused ==> r == g
    ensures r.(p1 := g.p1, p2 := g.p2) == g
    ensures r.p1.(bullets := g.p1.bullets) == g.p1 && r.p2.(bullets := g.p2.bullets) == g.p2
    ensures |r.p1.bullets| <= |g.p1.bullets| && |r.p2.bullets| <= |g.p2.bullets|
    decreases n
  {
    if n == 0 then g else Frames(Frame(g), n - 1)
  }

  /** One display refresh: every running chain calls `gameLoop` once. */
  function DisplayFrame(g: Game): (r: Game)
    ensures g.paused || g.loops == 0 ==> r == g
    ensures r.(p1 := g.p1, p2 := g.p2) == g
  {
    Frames(g, g.loops)
  }

  /** After a restart the chains keep calling `update`, but there is
      nothing for it to do. */
  lemma {:induction false} StoppedFramesChangeNothing(g: Game, n: nat)
    requires Inv(g) && !g.started
    ensures Frames(g, n) == g
    decreases n
  {
    if n > 0 {
      assert Frame(g) == g;
      StoppedFramesChangeNothing(g, n - 1);
    }
  }

  /** What the page can do to the game. */
  datatype Event =
    | KeyPressed(key: string)
    | StartClicked
    | PauseClicked
    | RestartClicked
    | PlayAgainClicked
    | Refresh

  function Step(g: Game, e: Event): Game {
    match e
    case KeyPressed(key) => KeyDown(g, key)
    case StartClicked => StartGame(g)
    case PauseClicked => TogglePause(g)
    case RestartClicked => RestartGame(g)
    case PlayAgainClicked => PlayAgain(g)
    case Refresh => DisplayFrame(g)
  }

  function Run(g: Game, es: seq<Event>): Game
    decreases |es|
  {
    if |es| == 0 then g else Run(Step(g, es[0]), es[1..])
  }

  /** No event ever moves a player. */
  lemma StepKeepsPlayersHome(g: Game, e: Event)
    requires AtHome(g)
    ensures AtHome(Step(g, e))
  {
  }

  lemma {:induction false} RunKeepsPlayersHome(g: Game, es: seq<Event>)
    requires AtHome(g)
    ensures AtHome(Run(g, es))
    decreases |es|
  {
    if |es| > 0 {
      StepKeepsPlayersHome(g, es[0]);
      RunKeepsPlayersHome(Step(g, es[0]), es[1..]);
    }
  }

  /** A pass keeps every bullet one its owner fired, and on screen. */
  lemma SweepKeepsBulletsOk(p: Player, width: int)
    requires BulletsOk(p, width)
    ensures BulletsOk(p.(bullets := Sweep(p.bullets, width)), width)
  {
    var r := Sweep(p.bullets, width);
    forall i | 0 <= i < |r|
      ensures FiredBy(r[i], p) && OnScreen(r[i], width)
    {
      assert r[i] in r;
      var a :| a in p.bullets && (r[i] == a || r[i] == Advance(a));
      var k :| 0 <= k < |p.bullets| && p.bullets[k] == a;
    }
  }

  lemma {:induction false} FramesKeepInv(g: Game, n: nat)
    requires Inv(g)
    ensures Inv(Frames(g, n))
    decreases n
  {
    if n > 0 && !g.paused {
      SweepKeepsBulletsOk(g.p1, g.width);
      SweepKeepsBulletsOk(g.p2, g.width);
      if !g.started {
        assert Frame(g) == g;
      }
      FramesKeepInv(Frame(g), n - 1);
    }
  }

  /** Shooting keeps every bullet on screen only because the muzzles are:
      player 1's at x = 120 and player 2's at x = width - 120. */
  lemma ShootKeepsBulletsOk(p: Player, g: Game)
    requires AtHome(g) && g.width >= 120
    requires p == g.p1 || p == g.p2
    requires BulletsOk(p, g.width)
    ensures BulletsOk(Shoot(p), g.width)
  {
    var r := Shoot(p);
    forall i | 0 <= i < |r.bullets|
      ensures FiredBy(r.bullets[i], r) && OnScreen(r.bullets[i], g.width)
    {
      if i < |p.bullets| {
        assert r.bullets[i] == p.bullets[i];
      }
    }
  }

  lemma StepKeepsInv(g: Game, e: Event)
    requires Inv(g) && g.width >= 120
    ensures Inv(Step(g, e))
  {
    match e
    case KeyPressed(key) =>
      if g.started {
        KeyDownWhileStarted(g, key);
        ShootKeepsBulletsOk(g.p1, g);
        ShootKeepsBulletsOk(g.p2, g);
      }
    case Refresh =>
      FramesKeepInv(g, g.loops);
    case _ =>
  }

  /** Every state reached from page load, by any sequence of key presses,
      button clicks and display refreshes, satisfies `Inv`. */
  lemma {:induction false} RunKeepsInv(g: Game, es: seq<Event>)
    requires Inv(g) && g.width >= 120
    ensures Inv(Run(g, es))
    decreases |es|
  {
    if |es| > 0 {
      StepKeepsInv(g, es[0]);
      RunKeepsInv(Step(g, es[0]), es[1..]);
    }
  }

  lemma Reachable(width: int, height: int, es: seq<Event>)
    requires width >= 120
    ensures Inv(Run(Init(width, height), es))
  {
    RunKeepsInv(Init(width, height), es);
  }

  /** On an 800-wide canvas player 1's shot starts at x = 120, is at 170
      after ten updates, at 800 after 136 and gone after 137. */
  lemma PlayerOneShotCrossesCanvas(height: int)
    ensures var b := Muzzle(HomePlayer1(800, height, []));
            && b.x == 120 && b.direction == 1
            && Sweeps([b], 800, 10) == [b.(x := 170)]
            && Sweeps([b], 800, 136) == [b.(x := 800)]
            && Sweeps([b], 800, 137) == []
  {
    var b := Muzzle(HomePlayer1(800, height, []));
    LoneBulletFlight(b, 800, 10);
    LoneBulletFlight(b, 800, 136);
  }
}
