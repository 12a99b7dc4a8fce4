/** The socket handlers and the game loop of Darkforest/server.js as one server object
    whose fields are the module-level state of the source (lines 30-34) together with
    the per-socket `socket.data.roomId`. */
module MatchServer {
  import opened Arena
  import opened Seqs
  import opened Matchmaking
  import opened Entities
  import opened Physics
  import opened Tick

  /** The inner `for (const id in room.players)` of lines 176-190: the first player in
      enumeration order that the bullet touches, skipping its owner and the dead. */
  method FindTarget(b: Bullet, players: map<SocketId, Player>, order: seq<SocketId>) returns (t: Option<SocketId>)
    requires forall id | id in order :: id in players
    ensures t == FirstTarget(b, players, order)
  {
    var i := 0;
    while i < |order|
      invariant 0 <= i <= |order|
      invariant FirstTarget(b, players, order) == FirstTarget(b, players, order[i..])
    {
      var id := order[i];
      if id != b.owner {
        var p := players[id];
        if p.alive {
          if Overlaps(b, p) {
            return Some(id);
          }
        }
      }
      assert !IsTarget(b, players, id);
      NextTarget(b, players, order, i);
      i := i + 1;
    }
    return None;
  }

  lemma NextTarget(b: Bullet, players: map<SocketId, Player>, order: seq<SocketId>, i: nat)
    requires i < |order| && !IsTarget(b, players, order[i])
    ensures FirstTarget(b, players, order[i..]) == FirstTarget(b, players, order[i + 1..])
  {
    assert order[i..][1..] == order[i + 1..];
  }

  /** The filter callback of lines 166-193 on one bullet: the bounds test, then `steps`
      sub-steps, each followed by the player scan. */
  method FilterBullet(b: Bullet, players: map<SocketId, Player>, order: seq<SocketId>) returns (fate: Fate)
    requires b.radius > 0.0
    requires forall id | id in order :: id in players
    ensures fate == TickBullet(b, players, order)
  {
    if b.x < 0.0 || b.x > Width || b.y < 0.0 || b.y > Height {
      return Dropped;
    }
    var steps := StepCount(b);
    var cur := b;
    var i := 0;
    while i < steps
      invariant 0 <= i <= steps
      invariant cur.speedX == b.speedX && cur.speedY == b.speedY
      invariant SubSteps(cur, players, order, steps, i) == TickBullet(b, players, order)
    {
      cur := cur.(x := cur.x + cur.speedX / (steps as real), y := cur.y + cur.speedY / (steps as real));
      var t := FindTarget(cur, players, order);
      if t.Some? {
        return Hit(t.value);
      }
      i := i + 1;
    }
    return Kept(cur);
  }

  /** `room.bullets.filter(...)` of lines 166-193: the bullets in list order, each hit
      marking its victim dead before the next bullet is examined. */
  method FilterBullets(bs: seq<Bullet>, players: map<SocketId, Player>, order: seq<SocketId>)
    returns (kept: seq<Bullet>, after: map<SocketId, Player>)
    requires AllPositive(bs)
    requires forall id | id in order :: id in players
    ensures TickResult(kept, after) == TickBullets(bs, players, order)
  {
    kept := [];
    after := players;
    var i := 0;
    while i < |bs|
      invariant 0 <= i <= |bs|
      invariant after.Keys == players.Keys
      invariant AllPositive(bs[i..])
      invariant var r := TickBullets(bs[i..], after, order);
        TickBullets(bs, players, order) == TickResult(kept + r.kept, r.players)
    {
      ghost var rest := bs[i..];
      assert rest[0] == bs[i] && rest[1..] == bs[i + 1..];
      var fate := FilterBullet(bs[i], after, order);
      var next := after;
      if fate.Hit? {
        next := after[fate.victim := after[fate.victim].(alive := false)];
      }
      ghost var r := TickBullets(bs[i + 1..], next, order);
      if fate.Kept? {
        assert kept + ([fate.bullet] + r.kept) == (kept + [fate.bullet]) + r.kept;
        kept := kept + [fate.bullet];
      }
      after := next;
      i := i + 1;
    }
    assert bs[i..] == [];
  }

  /** The body of the `input` handler (lines 108-117) on one player record: the movement
      keys in the order w, s, a, d, then the flashlight, then the clamp to the arena. */
  method ApplyInput(p: Player, keys: Keys) returns (player: Player)
    ensures player == Steer(p, keys)
  {
    player := p;
    var speed := player.speed;
    var x, y := player.x, player.y;
    if Pressed(keys, "w") { y := y - speed; }
    if Pressed(keys, "s") { y := y + speed; }
    if Pressed(keys, "a") { x := x - speed; }
    if Pressed(keys, "d") { x := x + speed; }
    AxisOffset(player.y, speed, Pressed(keys, "s"), Pressed(keys, "w"), y);
    AxisOffset(player.x, speed, Pressed(keys, "d"), Pressed(keys, "a"), x);
    player := player.(flashlightOn := Pressed(keys, " "));
    var radius := player.radius;
    player := player.(x := Max(radius, Min(Width - radius, x)), y := Max(radius, Min(Height - radius, y)));
  }

  /** Lines 109-112 on one axis: first the minus key, then the plus key. */
  lemma AxisOffset(v: real, speed: real, plus: bool, minus: bool, w: real)
    requires w == (if minus then v - speed else v) + (if plus then speed else 0.0)
    ensures w == v + ((if plus then speed else 0.0) - (if minus then speed else 0.0))
  {
  }

  /** Replace the record of one seated player. */
  function WithPlayer(rooms: map<RoomId, Room>, rid: RoomId, sid: SocketId, p: Player): (rs: map<RoomId, Room>)
    requires rid in rooms
    ensures rs.Keys == rooms.Keys && rid in rs
    ensures rs[rid].order == rooms[rid].order && rs[rid].bullets == rooms[rid].bullets
  {
    rooms[rid := rooms[rid].(players := rooms[rid].players[sid := p])]
  }

  lemma RoomValidWithPlayer(room: Room, sid: SocketId, p: Player, next: nat)
    requires RoomValid(room, next) && sid in room.players && StandardPlayer(p)
    ensures RoomValid(room.(players := room.players[sid := p]), next)
  {
    TaggedUnderSameSeats(room.bullets, room.players, room.players[sid := p], next);
  }

  lemma RoomValidLater(room: Room, next: nat, later: nat)
    requires RoomValid(room, next) && next <= later
    ensures RoomValid(room, later)
  {
    forall i | 0 <= i < |room.bullets| ensures BulletTagged(room.bullets[i], room.players, later) {
      assert BulletTagged(room.bullets[i], room.players, next);
    }
  }

  /** A fired bullet, whose id is above every id in the room, keeps the room valid. */
  lemma RoomValidFire(room: Room, b: Bullet, next: nat)
    requires RoomValid(room, next) && BulletTagged(b, room.players, next + 1) && b.id == next
    ensures RoomValid(room.(bullets := room.bullets + [b]), next + 1)
  {
    RoomValidLater(room, next, next + 1);
    var bs := room.bullets + [b];
    forall i | 0 <= i < |bs| ensures BulletTagged(bs[i], room.players, next + 1) {
      if i < |room.bullets| {
        assert bs[i] == room.bullets[i];
      }
    }
    forall i, j | 0 <= i < j < |bs| ensures bs[i].id < bs[j].id {
      assert bs[i] == room.bullets[i];
      if j < |room.bullets| {
        assert bs[j] == room.bullets[j];
      } else {
        assert BulletTagged(room.bullets[i], room.players, next);
      }
    }
  }

  class Server {
    /** Sockets waiting for an opponent (line 31). */
    var queue: seq<SocketId>
    /** Running matches by room id (line 32). */
    var rooms: map<RoomId, Room>
    /** `socket.data.roomId` of every socket that has been paired (lines 55-56). */
    var roomOf: map<SocketId, RoomId>
    /** The global bullet id counter (line 30). */
    var nextBulletId: nat
    /** Connected sockets (line 34). */
    var onlineCount: int

    /** At most one socket waits, never twice, and every room is valid. */
    ghost predicate Valid()
      reads this
    {
      && NoDuplicates(queue)
      && |queue| <= 1
      && forall rid | rid in rooms :: RoomValid(rooms[rid], nextBulletId)
    }

    /** `rooms[socket.data.roomId]?.players[socket.id]` exists. */
    predicate Seated(sid: SocketId)
      reads this
    {
      sid in roomOf && roomOf[sid] in rooms && sid in rooms[roomOf[sid]].players
    }

    /** The player record of a seated socket. */
    function SeatOf(sid: SocketId): (p: Player)
      reads this
      requires Seated(sid)
    {
      rooms[roomOf[sid]].players[sid]
    }

    constructor ()
      ensures Valid()
      ensures queue == [] && rooms == map[] && roomOf == map[] && nextBulletId == 0 && onlineCount == 0
    {
      queue := [];
      rooms := map[];
      roomOf := map[];
      nextBulletId := 0;
      onlineCount := 0;
    }

    /** Line 37: a socket connects. */
    method Connect()
      modifies this
      requires Valid()
      ensures Valid()
      ensures onlineCount == old(onlineCount) + 1
      ensures queue == old(queue) && rooms == old(rooms) && roomOf == old(roomOf) && nextBulletId == old(nextBulletId)
    {
      onlineCount := onlineCount + 1;
    }

    /** Lines 41-94, `joinQueue`: queue the socket once; when two are waiting, pair the
        two oldest in a new room. The spawn points, `Math.random()` scaled to the arena
        in the source, are parameters. */
    method JoinQueue(sid: SocketId, x1: real, y1: real, x2: real, y2: real)
      modifies this
      requires Valid()
      ensures Valid()
      ensures queue == Join(old(queue), sid).rest
      ensures var j := Join(old(queue), sid);
        j.Paired? ==>
          var rid := RoomName(j.first, j.second);
          rooms == old(rooms)[rid := NewRoom(j.first, j.second, x1, y1, x2, y2)] &&
          roomOf == old(roomOf)[j.first := rid][j.second := rid]
      ensures Join(old(queue), sid).Waiting? ==> rooms == old(rooms) && roomOf == old(roomOf)
      ensures nextBulletId == old(nextBulletId) && onlineCount == old(onlineCount)
    {
      ghost var j := Join(queue, sid);
      if sid !in queue {
        queue := queue + [sid];
      }
      assert queue == Enqueue(old(queue), sid);
      if |queue| >= 2 {
        assert j.Paired? && queue == [j.first, j.second] + j.rest;
        var player1 := queue[0];
        queue := queue[1..];
        var player2 := queue[0];
        queue := queue[1..];
        assert player1 == j.first && player2 == j.second && queue == j.rest;
        var roomId := RoomName(player1, player2);
        NewRoomValid(player1, player2, x1, y1, x2, y2, nextBulletId);
        roomOf := roomOf[player1 := roomId][player2 := roomId];
        rooms := rooms[roomId := NewRoom(player1, player2, x1, y1, x2, y2)];
        assert NoDuplicates(queue) && |queue| <= 1;
      } else {
        assert j.Waiting? && queue == j.rest;
      }
    }

    /** Lines 96-101, `mousemove`: a seated socket's aim point is overwritten. */
    method Mousemove(sid: SocketId, mouseX: real, mouseY: real)
      modifies this
      requires Valid()
      ensures Valid()
      ensures old(Seated(sid)) ==>
        rooms == WithPlayer(old(rooms), old(roomOf[sid]), sid,
                            old(SeatOf(sid)).(mouseX := mouseX, mouseY := mouseY))
      ensures !old(Seated(sid)) ==> rooms == old(rooms)
      ensures queue == old(queue) && roomOf == old(roomOf)
      ensures nextBulletId == old(nextBulletId) && onlineCount == old(onlineCount)
    {
      if !Seated(sid) {
        return;
      }
      var roomId := roomOf[sid];
      var player := rooms[roomId].players[sid];
      player := player.(mouseX := mouseX, mouseY := mouseY);
      RoomValidWithPlayer(rooms[roomId], sid, player, nextBulletId);
      rooms := WithPlayer(rooms, roomId, sid, player);
    }

    /** Lines 103-118, `input`: a seated socket's player is steered by the pressed keys. */
    method Input(sid: SocketId, keys: Keys)
      modifies this
      requires Valid()
      ensures Valid()
      ensures old(Seated(sid)) ==>
        rooms == WithPlayer(old(rooms), old(roomOf[sid]), sid, Steer(old(SeatOf(sid)), keys))
      ensures !old(Seated(sid)) ==> rooms == old(rooms)
      ensures queue == old(queue) && roomOf == old(roomOf)
      ensures nextBulletId == old(nextBulletId) && onlineCount == old(onlineCount)
    {
      if !Seated(sid) {
        return;
      }
      var roomId := roomOf[sid];
      var player := rooms[roomId].players[sid];
      player := ApplyInput(player, keys);
      RoomValidWithPlayer(rooms[roomId], sid, player, nextBulletId);
      rooms := WithPlayer(rooms, roomId, sid, player);
    }

    /** Lines 120-139, `fire`: a seated socket appends a bullet aimed at its aim point and
        takes the next bullet id. `dist` is Math.hypot of the aim offset. */
    method Fire(sid: SocketId, dist: real)
      modifies this
      requires Valid()
      requires Seated(sid) ==> IsHypot(dist, SeatOf(sid).mouseX - SeatOf(sid).x, SeatOf(sid).mouseY - SeatOf(sid).y)
      ensures Valid()
      ensures old(Seated(sid)) ==>
        var rid := old(roomOf[sid]);
        rooms == old(rooms)[rid := old(rooms[rid]).(bullets := old(rooms[rid].bullets) + [Launch(old(SeatOf(sid)), dist, old(nextBulletId), sid)])] &&
        nextBulletId == old(nextBulletId) + 1
      ensures !old(Seated(sid)) ==> rooms == old(rooms) && nextBulletId == old(nextBulletId)
      ensures queue == old(queue) && roomOf == old(roomOf) && onlineCount == old(onlineCount)
    {
      if !Seated(sid) {
        return;
      }
      var roomId := roomOf[sid];
      var room := rooms[roomId];
      var player := room.players[sid];
      var b := Launch(player, dist, nextBulletId, sid);
      RoomValidFire(room, b, nextBulletId);
      forall rid | rid in rooms ensures RoomValid(rooms[rid], nextBulletId + 1) {
        RoomValidLater(rooms[rid], nextBulletId, nextBulletId + 1);
      }
      nextBulletId := nextBulletId + 1;
      rooms := rooms[roomId := room.(bullets := room.bullets + [b])];
    }

    /** Lines 141-152, `disconnect`: the count drops, the socket leaves the queue, and
        a seated socket's player dies. */
    method Disconnect(sid: SocketId)
      modifies this
      requires Valid()
      ensures Valid()
      ensures onlineCount == old(onlineCount) - 1
      ensures queue == Without(old(queue), sid)
      ensures old(Seated(sid)) ==>
        rooms == WithPlayer(old(rooms), old(roomOf[sid]), sid, old(SeatOf(sid)).(alive := false))
      ensures !old(Seated(sid)) ==> rooms == old(rooms)
      ensures roomOf == old(roomOf) && nextBulletId == old(nextBulletId)
    {
      onlineCount := onlineCount - 1;
      SubseqNoDuplicates(Without(queue, sid), queue);
      queue := Without(queue, sid);
      if sid !in roomOf {
        return;
      }
      var roomId := roomOf[sid];
      if !(roomId in rooms && sid in rooms[roomId].players) {
        return;
      }
      var player := rooms[roomId].players[sid];
      player := player.(alive := false);
      RoomValidWithPlayer(rooms[roomId], sid, player, nextBulletId);
      rooms := WithPlayer(rooms, roomId, sid, player);
    }

    /** Lines 154-159, `gameOver`: any socket that was paired removes its room. */
    method GameOver(sid: SocketId)
      modifies this
      requires Valid()
      ensures Valid()
      ensures sid in old(roomOf) ==> rooms == old(rooms) - {old(roomOf[sid])}
      ensures sid !in old(roomOf) ==> rooms == old(rooms)
      ensures queue == old(queue) && roomOf == old(roomOf)
      ensures nextBulletId == old(nextBulletId) && onlineCount == old(onlineCount)
    {
      if sid !in roomOf {
        return;
      }
      var roomId := roomOf[sid];
      if roomId !in rooms {
        return;
      }
      rooms := rooms - {roomId};
    }

    /** Lines 162-199, `updateRoom`: one tick of one room. */
    method UpdateRoom(roomId: RoomId)
      modifies this
      requires Valid()
      ensures Valid()
      ensures roomId in old(rooms) ==>
        AllPositive(old(rooms[roomId]).bullets) && rooms == old(rooms)[roomId := TickRoom(old(rooms[roomId]))]
      ensures roomId !in old(rooms) ==> rooms == old(rooms)
      ensures queue == old(queue) && roomOf == old(roomOf)
      ensures nextBulletId == old(nextBulletId) && onlineCount == old(onlineCount)
    {
      if roomId !in rooms {
        return;
      }
      var room := rooms[roomId];
      TickPreservesRoom(room, nextBulletId);
      var kept, players := FilterBullets(room.bullets, room.players, room.order);
      rooms := rooms[roomId := room.(players := players, bullets := kept)];
    }

    /** Lines 201-205: the 50 ms loop updates every room. */
    method TickAll()
      modifies this
      requires Valid()
      ensures Valid()
      ensures rooms.Keys == old(rooms).Keys
      ensures forall rid | rid in old(rooms) ::
        AllPositive(old(rooms)[rid].bullets) && rooms[rid] == TickRoom(old(rooms)[rid])
      ensures queue == old(queue) && roomOf == old(roomOf)
      ensures nextBulletId == old(nextBulletId) && onlineCount == old(onlineCount)
    {
      var todo := rooms.Keys;
      while todo != {}
        invariant Valid()
        invariant todo <= rooms.Keys && rooms.Keys == old(rooms).Keys
        invariant forall rid | rid in todo :: rooms[rid] == old(rooms)[rid]
        invariant forall rid | rid in old(rooms) && rid !in todo ::
          AllPositive(old(rooms)[rid].bullets) && rooms[rid] == TickRoom(old(rooms)[rid])
        invariant queue == old(queue) && roomOf == old(roomOf)
        invariant nextBulletId == old(nextBulletId) && onlineCount == old(onlineCount)
        decreases todo
      {
        var rid :| rid in todo;
        UpdateRoom(rid);
        todo := todo - {rid};
      }
    }
  }
}
