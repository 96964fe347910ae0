/** The two entity records of the game and the `shoot` action that creates a
    bullet. Every coordinate in the game is an integer: the canvas size is,
    the player offsets are, and the only division halves the fixed player
    width of 40. */
module Entities {

  /** A projectile: centre, radius, scalar speed and a direction of +1
      (rightwards) or -1 (leftwards). */
  datatype Bullet = Bullet(x: int, y: int, radius: int, speed: int, direction: int)

  /** A player: identity 1 or 2, top-left corner, size, the key that fires,
      and the bullets it has fired, oldest first. */
  datatype Player = Player(id: int, x: int, y: int, width: int, height: int,
                           shootKey: string, bullets: seq<Bullet>)

  const BulletRadius := 5
  const BulletSpeed := 5
  const PlayerSize := 40

  /** Player 1 shoots rightwards, every other player leftwards. */
  function Direction(id: int): (d: int)
    ensures d == 1 || d == -1
    ensures d == 1 <==> id == 1
  {
    if id == 1 then 1 else -1
  }

  /** Player 1 as created at load time and as put back by a restart. */
  function HomePlayer1(width: int, height: int, bullets: seq<Bullet>): (p: Player)
    ensures p.id == 1 && p.shootKey == "f" && p.bullets == bullets
    ensures p.x == 100 && p.y == height - 50 && p.width == PlayerSize && p.height == PlayerSize
    ensures 0 <= p.x + p.width / 2 <= width <==> width >= 120
  {
    Player(1, 100, height - 50, PlayerSize, PlayerSize, "f", bullets)
  }

  /** Player 2 as created at load time and as put back by a restart. */
  function HomePlayer2(width: int, height: int, bullets: seq<Bullet>): (p: Player)
    ensures p.id == 2 && p.shootKey == "l" && p.bullets == bullets
    ensures p.x == width - 140 && p.y == height - 50 && p.width == PlayerSize && p.height == PlayerSize
    ensures 0 <= p.x + p.width / 2 <= width <==> width >= 120
  {
    Player(2, width - 140, height - 50, PlayerSize, PlayerSize, "l", bullets)
  }

  /** The bullet `shoot` creates: horizontally centred on the player, at the
      player's top edge, travelling away from the player's own side. */
  function Muzzle(p: Player): (b: Bullet)
    ensures b.y == p.y && b.radius == BulletRadius && b.speed == BulletSpeed
    ensures b.direction == 1 <==> p.id == 1
    ensures b.direction == -1 <==> p.id != 1
    ensures p.width == PlayerSize ==> b.x == p.x + 20
  {
    Bullet(p.x + p.width / 2, p.y, BulletRadius, BulletSpeed, Direction(p.id))
  }

  /** `shoot`: one new bullet at the end of the player's list; the player
      itself and its earlier bullets are untouched. */
  function Shoot(p: Player): (r: Player)
    ensures |r.bullets| == |p.bullets| + 1
    ensures r.bullets[..|p.bullets|] == p.bullets
    ensures r.bullets[|p.bullets|] == Muzzle(p)
    ensures r.(bullets := p.bullets) == p
  {
    p.(bullets := p.bullets + [Muzzle(p)])
  }
}
