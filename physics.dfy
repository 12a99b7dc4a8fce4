/** The tick update of Darkforest/server.js (`updateRoom`, lines 162-199) as
    specification functions: what one tick does to a room's bullets and players. */
module Physics {
  import opened Arena
  import opened Seqs
  import opened Entities

  /** Line 167: a bullet outside [0, width] x [0, height] is dropped before it moves. */
  predicate OutOfBounds(b: Bullet): (out: bool)
    ensures out <==> !(0.0 <= b.x <= Width && 0.0 <= b.y <= Height)
  {
    b.x < 0.0 || b.x > Width || b.y < 0.0 || b.y > Height
  }

  /** Lines 182-186: the squared-distance circle test. */
  predicate Overlaps(b: Bullet, p: Player)
  {
    var dx := b.x - p.x;
    var dy := b.y - p.y;
    var r := p.radius + b.radius;
    dx * dx + dy * dy < r * r
  }

  /** The circle test depends only on the offset between bullet and player, not on
      where in the arena they are. */
  lemma OverlapsDependsOnOffset(b: Bullet, p: Player, c: Bullet, q: Player)
    requires c.x - q.x == b.x - p.x && c.y - q.y == b.y - p.y
    requires c.radius + q.radius == b.radius + p.radius
    ensures Overlaps(c, q) == Overlaps(b, p)
  {
    var dx, dy, r := b.x - p.x, b.y - p.y, p.radius + b.radius;
    assert c.x - q.x == dx && c.y - q.y == dy && q.radius + c.radius == r;
  }

  /** Lines 177-186: the player seated under `id` is hit by b. */
  predicate IsTarget(b: Bullet, players: map<SocketId, Player>, id: SocketId)
  {
    id in players && id != b.owner && players[id].alive && Overlaps(b, players[id])
  }

  /** The first id, in enumeration order, whose player b hits; None when it hits nobody. */
  function FirstTarget(b: Bullet, players: map<SocketId, Player>, ids: seq<SocketId>): (t: Option<SocketId>)
    ensures t.Some? ==> t.value in ids && IsTarget(b, players, t.value)
    ensures t.None? <==> forall k | 0 <= k < |ids| :: !IsTarget(b, players, ids[k])
  {
    if ids == [] then None
    else if IsTarget(b, players, ids[0]) then Some(ids[0])
    else FirstTarget(b, players, ids[1..])
  }

  /** Ties are broken by enumeration order: the earliest hit id is the one reported. */
  lemma {:induction false} FirstTargetIsEarliest(b: Bullet, players: map<SocketId, Player>, ids: seq<SocketId>, k: nat)
    requires k < |ids| && IsTarget(b, players, ids[k])
    requires forall j | 0 <= j < k :: !IsTarget(b, players, ids[j])
    ensures FirstTarget(b, players, ids) == Some(ids[k])
  {
    if k > 0 {
      assert !IsTarget(b, players, ids[0]);
      forall j | 0 <= j < k - 1 ensures !IsTarget(b, players, ids[1..][j]) {
        assert ids[1..][j] == ids[j + 1];
      }
      FirstTargetIsEarliest(b, players, ids[1..], k - 1);
    }
  }

  /** n sub-steps of length r cover a displacement of squared length q. */
  predicate Covers(n: nat, r: real, q: real)
  {
    ((n * n) as real) * (r * r) >= q
  }

  lemma PositiveSquare(r: real)
    requires r > 0.0
    ensures r * r > 0.0
  {
  }

  lemma NatBelowSquare(n: nat)
    ensures n <= n * n
  {
    if n > 0 {
      assert n * n == n * (n - 1) + n;
    }
  }

  lemma BelowQuotient(a: real, b: real, c: real)
    requires b > 0.0 && a * b < c
    ensures a < c / b
  {
  }

  /** A count that does not cover q yet is at most q / r^2, so the search below ends. */
  lemma CoverBound(q: real, r: real, n: nat)
    requires r > 0.0 && !Covers(n, r, q)
    ensures n <= (q / (r * r)).Floor
  {
    PositiveSquare(r);
    BelowQuotient((n * n) as real, r * r, q);
    NatBelowSquare(n);
    assert (n as real) <= (n * n) as real;
  }

  /** The least count from n upwards that covers q. */
  function LeastCover(q: real, r: real, n: nat): (k: nat)
    requires r > 0.0
    ensures n <= k && Covers(k, r, q)
    decreases (q / (r * r)).Floor + 1 - n
  {
    if Covers(n, r, q) then n
    else
      CoverBound(q, r, n);
      LeastCover(q, r, n + 1)
  }

  lemma {:induction false} LeastCoverIsLeast(q: real, r: real, n: nat, m: nat)
    requires r > 0.0 && n <= m < LeastCover(q, r, n)
    ensures !Covers(m, r, q)
    decreases (q / (r * r)).Floor + 1 - n
  {
    if m > n {
      CoverBound(q, r, n);
      LeastCoverIsLeast(q, r, n + 1, m);
    }
  }

  /** The squared speed of a bullet per tick. */
  function Speed2(b: Bullet): real
  {
    b.speedX * b.speedX + b.speedY * b.speedY
  }

  /** Lines 169-170, `Math.ceil(Math.hypot(speedX, speedY) / radius)` in exact arithmetic:
      the least count n with n * radius >= |velocity|. */
  function StepCount(b: Bullet): (n: nat)
    requires b.radius > 0.0
    ensures Covers(n, b.radius, Speed2(b))
    ensures n > 0 ==> !Covers(n - 1, b.radius, Speed2(b))
  {
    var n := LeastCover(Speed2(b), b.radius, 0);
    if n > 0 then
      LeastCoverIsLeast(Speed2(b), b.radius, 0, n - 1);
      n
    else n
  }

  /** StepCount is the ceiling: it covers the velocity and no smaller count does. */
  lemma StepCountIsCeiling(b: Bullet, m: nat)
    requires b.radius > 0.0
    ensures Covers(StepCount(b), b.radius, Speed2(b))
    ensures m < StepCount(b) ==> !Covers(m, b.radius, Speed2(b))
  {
    if m < StepCount(b) {
      LeastCoverIsLeast(Speed2(b), b.radius, 0, m);
    }
  }

  /** If n sub-steps of length r cover (vx, vy), each share (vx/n, vy/n) is at most r long. */
  lemma ShareWithinRadius(vx: real, vy: real, r: real, n: nat)
    requires n > 0 && r > 0.0
    requires ((n * n) as real) * (r * r) >= vx * vx + vy * vy
    ensures (vx / (n as real)) * (vx / (n as real)) + (vy / (n as real)) * (vy / (n as real)) <= r * r
  {
    var k := n as real;
    var nn := (n * n) as real;
    assert nn == k * k;
    assert (vx / k) * (vx / k) == (vx * vx) / nn;
    assert (vy / k) * (vy / k) == (vy * vy) / nn;
    assert (vx * vx) / nn + (vy * vy) / nn == (vx * vx + vy * vy) / nn;
    assert nn > 0.0;
    assert (vx * vx + vy * vy) / nn <= (nn * (r * r)) / nn;
  }

  /** No tunnelling: a single sub-step moves a bullet by at most its own radius. */
  lemma SubStepWithinRadius(b: Bullet)
    requires b.radius > 0.0 && StepCount(b) > 0
    ensures var k := StepCount(b) as real;
      (b.speedX / k) * (b.speedX / k) + (b.speedY / k) * (b.speedY / k) <= b.radius * b.radius
  {
    StepCountIsCeiling(b, 0);
    ShareWithinRadius(b.speedX, b.speedY, b.radius, StepCount(b));
  }

  /** A bullet at rest needs no sub-step. */
  lemma RestingBulletHasNoSteps(b: Bullet)
    requires b.radius > 0.0 && b.speedX == 0.0 && b.speedY == 0.0
    ensures StepCount(b) == 0
  {
  }

  /** A bullet fired at the standard speed with the standard size takes 50 sub-steps. */
  lemma FiredBulletSteps(b: Bullet)
    requires b.radius == BulletSize && Speed2(b) == BulletSpeed * BulletSpeed
    ensures StepCount(b) == 50
  {
    StepCountIsCeiling(b, 50);
  }

  /** Lines 173-174: one sub-step, a 1/n share of the velocity. */
  function Move(b: Bullet, n: nat): (c: Bullet)
    requires n > 0
    ensures c == b.(x := c.x, y := c.y)
    ensures (n as real) * (c.x - b.x) == b.speedX && (n as real) * (c.y - b.y) == b.speedY
  {
    b.(x := b.x + b.speedX / (n as real), y := b.y + b.speedY / (n as real))
  }

  /** b after j sub-steps of 1/n of its velocity; only the position changes. */
  function Travelled(b: Bullet, j: nat, n: nat): (c: Bullet)
    requires j == 0 || n > 0
    ensures c == b.(x := c.x, y := c.y)
    decreases j
  {
    if j == 0 then b else Travelled(Move(b, n), j - 1, n)
  }

  /** In closed form, j sub-steps move a bullet by j/n of its velocity, so a bullet
      that completes all n sub-steps has moved by its whole velocity. */
  lemma {:induction false} TravelledClosedForm(b: Bullet, j: nat, n: nat)
    requires n > 0
    ensures var k := n as real;
      Travelled(b, j, n).x == b.x + (j as real) * (b.speedX / k) &&
      Travelled(b, j, n).y == b.y + (j as real) * (b.speedY / k)
    decreases j
  {
    if j > 0 {
      TravelledClosedForm(Move(b, n), j - 1, n);
    }
  }

  lemma FullTravel(b: Bullet, n: nat)
    requires n > 0
    ensures Travelled(b, n, n) == b.(x := b.x + b.speedX, y := b.y + b.speedY)
  {
    TravelledClosedForm(b, n, n);
    var k := n as real;
    assert k * (b.speedX / k) == b.speedX;
    assert k * (b.speedY / k) == b.speedY;
  }

  /** What the filter callback does with one bullet. */
  datatype Fate = Kept(bullet: Bullet) | Dropped | Hit(victim: SocketId)

  /** Lines 172-191 from sub-step i of n on: move, test every player, stop at the first hit. */
  function SubSteps(b: Bullet, players: map<SocketId, Player>, ids: seq<SocketId>, n: nat, i: nat): (f: Fate)
    requires i <= n
    ensures f.Hit? ==> f.victim in ids && f.victim in players && f.victim != b.owner && players[f.victim].alive
    ensures f.Kept? ==> f.bullet == Travelled(b, n - i, n)
    ensures !f.Dropped?
    decreases n - i
  {
    if i == n then Kept(b)
    else
      var moved := Move(b, n);
      match FirstTarget(moved, players, ids)
      case Some(v) => Hit(v)
      case None => SubSteps(moved, players, ids, n, i + 1)
  }

  /** The filter callback of lines 166-193 on one bullet. */
  function TickBullet(b: Bullet, players: map<SocketId, Player>, ids: seq<SocketId>): (f: Fate)
    requires b.radius > 0.0
    ensures f.Dropped? <==> OutOfBounds(b)
    ensures f.Hit? ==> f.victim in ids && f.victim in players && f.victim != b.owner && players[f.victim].alive
    ensures f.Kept? ==> f.bullet == Travelled(b, StepCount(b), StepCount(b))
  {
    if OutOfBounds(b) then Dropped else SubSteps(b, players, ids, StepCount(b), 0)
  }

  /** Line 187: the victim is marked dead. */
  function Kill(players: map<SocketId, Player>, v: SocketId): (ps: map<SocketId, Player>)
    requires v in players
    ensures ps.Keys == players.Keys && ps[v] == players[v].(alive := false)
    ensures forall id | id in players && id != v :: ps[id] == players[id]
  {
    players[v := players[v].(alive := false)]
  }

  predicate AllPositive(bs: seq<Bullet>)
  {
    forall i | 0 <= i < |bs| :: bs[i].radius > 0.0
  }

  datatype TickResult = TickResult(kept: seq<Bullet>, players: map<SocketId, Player>)

  /** The whole filter of lines 166-193: bullets in list order, each one seeing the deaths
      caused by the bullets before it. */
  function TickBullets(bs: seq<Bullet>, players: map<SocketId, Player>, ids: seq<SocketId>): (r: TickResult)
    requires AllPositive(bs)
    ensures r.players.Keys == players.Keys
    ensures |r.kept| <= |bs|
    decreases |bs|
  {
    if bs == [] then TickResult([], players)
    else
      var f := TickBullet(bs[0], players, ids);
      var after := if f.Hit? then Kill(players, f.victim) else players;
      var rest := TickBullets(bs[1..], after, ids);
      if f.Kept? then TickResult([f.bullet] + rest.kept, rest.players) else rest
  }

  /** The players as bullet k of the list sees them: after the deaths caused by the
      bullets before it. */
  function PlayersAt(bs: seq<Bullet>, players: map<SocketId, Player>, ids: seq<SocketId>, k: nat): (ps: map<SocketId, Player>)
    requires AllPositive(bs) && k <= |bs|
    ensures ps.Keys == players.Keys
    decreases k
  {
    if k == 0 then players
    else
      var f := TickBullet(bs[0], players, ids);
      var after := if f.Hit? then Kill(players, f.victim) else players;
      PlayersAt(bs[1..], after, ids, k - 1)
  }

  /** One call of `updateRoom` on an existing room. */
  function TickRoom(room: Room): (r: Room)
    requires AllPositive(room.bullets)
    ensures r.order == room.order && r.players.Keys == room.players.Keys
    ensures |r.bullets| <= |room.bullets|
  {
    var t := TickBullets(room.bullets, room.players, room.order);
    room.(players := t.players, bullets := t.kept)
  }

  /** The independent reference for the kept list: every in-bounds bullet after all of
      its sub-steps, in list order. */
  function Survivors(bs: seq<Bullet>): (s: seq<Bullet>)
    requires AllPositive(bs)
  {
    if bs == [] then []
    else
      var rest := Survivors(bs[1..]);
      if OutOfBounds(bs[0]) then rest
      else [Travelled(bs[0], StepCount(bs[0]), StepCount(bs[0]))] + rest
  }

  /** Players change only by dying: same seats, and each player is either untouched or
      was alive and is now the same player marked dead. */
  ghost predicate OnlyKilled(before: map<SocketId, Player>, after: map<SocketId, Player>)
  {
    && after.Keys == before.Keys
    && forall id | id in before ::
         after[id] == before[id] || (before[id].alive && after[id] == before[id].(alive := false))
  }
}
