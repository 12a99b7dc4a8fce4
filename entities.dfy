/** The records of a match (Darkforest/server.js lines 58-88 and 130-138): players,
    bullets and rooms, with the pure parts of the `input` and `fire` handlers. */
module Entities {
  import opened Arena
  import opened Seqs

  const PlayerRadius: real := 15.0
  const PlayerSpeed: real := 4.0
  const PlayerVision: real := 100.0
  /** The flashlight arc is Math.PI * 0.1; it is kept as its multiple of pi. */
  const FlashlightArcInPi: real := 0.1

  datatype Player = Player(
    x: real, y: real,
    mouseX: real, mouseY: real,
    color: string,
    radius: real, speed: real, vision: real,
    flashlightArc: real,
    flashlightOn: bool,
    alive: bool)

  datatype Bullet = Bullet(
    id: nat,
    x: real, y: real,
    radius: real,
    speedX: real, speedY: real,
    owner: SocketId)

  /** A room: the players keyed by socket id, the order in which the JavaScript object
      enumerates those keys (insertion order), and the bullets in firing order. */
  datatype Room = Room(players: map<SocketId, Player>, order: seq<SocketId>, bullets: seq<Bullet>)

  /** The key-name to boolean mapping sent with an `input` event; an absent key is falsy. */
  type Keys = map<string, bool>

  predicate Pressed(keys: Keys, k: string)
  {
    k in keys && keys[k]
  }

  /** `room-${player1}-${player2}` */
  function RoomName(p1: SocketId, p2: SocketId): (rid: RoomId)
    ensures |rid| == |p1| + |p2| + 6
    ensures rid[..5] == "room-" && rid[5..5 + |p1|] == p1
    ensures rid[5 + |p1|] == '-' && rid[6 + |p1|..] == p2
  {
    "room-" + p1 + "-" + p2
  }

  /** A freshly paired player at a spawn point drawn by the caller. */
  function Spawn(x: real, y: real, color: string): (p: Player)
    ensures p.x == x && p.y == y && p.mouseX == 0.0 && p.mouseY == 0.0 && p.color == color
    ensures StandardPlayer(p) && p.vision == PlayerVision && p.flashlightArc == FlashlightArcInPi
    ensures p.alive && !p.flashlightOn
  {
    Player(x, y, 0.0, 0.0, color, PlayerRadius, PlayerSpeed, PlayerVision, FlashlightArcInPi, false, true)
  }

  /** The bullet tags a room relies on: the standard size, an owner seated in the room
      and an id already handed out. */
  predicate BulletTagged(b: Bullet, players: map<SocketId, Player>, next: nat)
  {
    b.radius == BulletSize && b.owner in players && b.id < next
  }

  /** Ids strictly increase along the list. */
  predicate IncreasingIds(bs: seq<Bullet>)
  {
    forall i, j :: 0 <= i < j < |bs| ==> bs[i].id < bs[j].id
  }

  predicate StandardPlayer(p: Player)
  {
    p.radius == PlayerRadius && p.speed == PlayerSpeed
  }

  /** The room invariant: two distinct seats enumerated in `order`, standard players,
      and bullets with their tags and increasing ids below `next`, the global counter. */
  ghost predicate RoomValid(room: Room, next: nat)
  {
    && |room.order| == 2
    && NoDuplicates(room.order)
    && (forall id :: id in room.players <==> id in room.order)
    && (forall id | id in room.players :: StandardPlayer(room.players[id]))
    && (forall i | 0 <= i < |room.bullets| :: BulletTagged(room.bullets[i], room.players, next))
    && IncreasingIds(room.bullets)
  }

  /** The room created when p1 and p2 are paired (lines 58-88). */
  function NewRoom(p1: SocketId, p2: SocketId, x1: real, y1: real, x2: real, y2: real): (room: Room)
    requires p1 != p2
    ensures room.players.Keys == {p1, p2} && room.order == [p1, p2] && room.bullets == []
    ensures room.players[p1].color == "blue" && room.players[p2].color == "red"
    ensures room.players[p1].x == x1 && room.players[p1].y == y1
    ensures room.players[p2].x == x2 && room.players[p2].y == y2
    ensures forall id | id in room.players ::
      var p := room.players[id];
      p.alive && !p.flashlightOn && p.radius == 15.0 && p.speed == 4.0 &&
      p.vision == 100.0 && p.flashlightArc == FlashlightArcInPi &&
      p.mouseX == 0.0 && p.mouseY == 0.0
  {
    Room(map[p1 := Spawn(x1, y1, "blue"), p2 := Spawn(x2, y2, "red")], [p1, p2], [])
  }

  /** A new room is valid whatever the bullet counter says. */
  lemma NewRoomValid(p1: SocketId, p2: SocketId, x1: real, y1: real, x2: real, y2: real, next: nat)
    requires p1 != p2
    ensures RoomValid(NewRoom(p1, p2, x1, y1, x2, y2), next)
  {
  }

  /** Net displacement on one axis: `+speed` for the plus key, `-speed` for the minus key. */
  function Offset(keys: Keys, plus: string, minus: string, speed: real): real
  {
    (if Pressed(keys, plus) then speed else 0.0) - (if Pressed(keys, minus) then speed else 0.0)
  }

  /** The effect of one `input` event on the caller's player (lines 108-117): every
      pressed movement key moves its axis by `speed`, opposite keys cancel, the
      flashlight follows the space key, and the position is clamped to the arena. */
  function Steer(p: Player, keys: Keys): (q: Player)
    ensures q == p.(x := q.x, y := q.y, flashlightOn := q.flashlightOn)
    ensures q.flashlightOn == Pressed(keys, " ")
    ensures p.radius <= q.x && (2.0 * p.radius <= Width ==> q.x <= Width - p.radius)
    ensures p.radius <= q.y && (2.0 * p.radius <= Height ==> q.y <= Height - p.radius)
    ensures var tx := p.x + Offset(keys, "d", "a", p.speed);
      && (p.radius <= tx <= Width - p.radius ==> q.x == tx)
      && (tx < p.radius ==> q.x == p.radius)
      && (2.0 * p.radius <= Width && Width - p.radius < tx ==> q.x == Width - p.radius)
    ensures var ty := p.y + Offset(keys, "s", "w", p.speed);
      && (p.radius <= ty <= Height - p.radius ==> q.y == ty)
      && (ty < p.radius ==> q.y == p.radius)
      && (2.0 * p.radius <= Height && Height - p.radius < ty ==> q.y == Height - p.radius)
  {
    p.(x := Clamp(p.x + Offset(keys, "d", "a", p.speed), p.radius, Width - p.radius),
       y := Clamp(p.y + Offset(keys, "s", "w", p.speed), p.radius, Height - p.radius),
       flashlightOn := Pressed(keys, " "))
  }

  /** A standard player always ends an `input` event inside [15, 1265] x [15, 705]. */
  lemma SteerInArena(p: Player, keys: Keys)
    requires StandardPlayer(p)
    ensures var q := Steer(p, keys);
      PlayerRadius <= q.x <= Width - PlayerRadius && PlayerRadius <= q.y <= Height - PlayerRadius
  {
  }

  /** Standing still keeps a player who is already inside the arena where they are. */
  lemma SteerIdleKeepsPosition(p: Player, keys: Keys)
    requires p.radius <= p.x <= Width - p.radius && p.radius <= p.y <= Height - p.radius
    requires Pressed(keys, "w") == Pressed(keys, "s") && Pressed(keys, "a") == Pressed(keys, "d")
    ensures Steer(p, keys).x == p.x && Steer(p, keys).y == p.y
  {
  }

  /** The bullet a `fire` event appends (lines 125-138). `dist` is Math.hypot of the aim
      offset. When the aim point is the player's own position the source divides by zero
      and the velocity becomes NaN; such a bullet never moves and never collides, which is
      what a zero velocity does here. */
  function Launch(p: Player, dist: real, id: nat, owner: SocketId): (b: Bullet)
    requires IsHypot(dist, p.mouseX - p.x, p.mouseY - p.y)
    ensures b.id == id && b.owner == owner && b.radius == BulletSize
    ensures b.x == p.x && b.y == p.y
    ensures dist == 0.0 ==> b.speedX == 0.0 && b.speedY == 0.0
  {
    var dx := p.mouseX - p.x;
    var dy := p.mouseY - p.y;
    if dist == 0.0 then Bullet(id, p.x, p.y, BulletSize, 0.0, 0.0, owner)
    else
      var f := BulletSpeed / dist;
      Bullet(id, p.x, p.y, BulletSize, dx * f, dy * f, owner)
  }

  /** The scaling of lines 125-136 on plain numbers: dx, dy scaled by speed/dist. */
  lemma ScaledVelocity(dx: real, dy: real, dist: real, speed: real)
    requires dist > 0.0 && dist * dist == dx * dx + dy * dy
    ensures var f := speed / dist;
      (dx * f) * (dx * f) + (dy * f) * (dy * f) == speed * speed &&
      (dx * f) * dist == speed * dx && (dy * f) * dist == speed * dy
  {
    var f := speed / dist;
    assert f * dist == speed;
    assert (dx * f) * (dx * f) == (dx * dx) * (f * f);
    assert (dy * f) * (dy * f) == (dy * dy) * (f * f);
    assert (dx * dx) * (f * f) + (dy * dy) * (f * f) == (dist * dist) * (f * f);
    assert (dist * dist) * (f * f) == (dist * f) * (dist * f);
  }

  /** A bullet fired at an aim point at distance dist > 0 travels exactly `bulletSpeed`
      per tick, and its velocity is the unit vector towards the aim point scaled by
      `bulletSpeed` (velocity * dist == bulletSpeed * offset, componentwise). */
  lemma LaunchTowardsAim(p: Player, dist: real, id: nat, owner: SocketId)
    requires IsHypot(dist, p.mouseX - p.x, p.mouseY - p.y) && dist > 0.0
    ensures var b := Launch(p, dist, id, owner);
      b.speedX * b.speedX + b.speedY * b.speedY == BulletSpeed * BulletSpeed &&
      b.speedX * dist == BulletSpeed * (p.mouseX - p.x) &&
      b.speedY * dist == BulletSpeed * (p.mouseY - p.y)
  {
    ScaledVelocity(p.mouseX - p.x, p.mouseY - p.y, dist, BulletSpeed);
  }
}
