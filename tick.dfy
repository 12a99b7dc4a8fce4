/** What one tick of `updateRoom` (Darkforest/server.js lines 162-199) guarantees. */
module Tick {
  import opened Arena
  import opened Seqs
  import opened Entities
  import opened Physics

  /** From sub-step i on, a bullet survives exactly when none of its remaining
      positions touches a target. */
  lemma {:induction false} SubStepsKeptIffClear(b: Bullet, players: map<SocketId, Player>, ids: seq<SocketId>, n: nat, i: nat)
    requires i <= n
    ensures SubSteps(b, players, ids, n, i).Kept? <==>
      forall j | 1 <= j <= n - i :: FirstTarget(Travelled(b, j, n), players, ids).None?
    decreases n - i
  {
    if i < n {
      var moved := Move(b, n);
      SubStepsKeptIffClear(moved, players, ids, n, i + 1);
      var m := n - i;
      if FirstTarget(moved, players, ids).None? {
        assert SubSteps(b, players, ids, n, i) == SubSteps(moved, players, ids, n, i + 1);
        if SubSteps(moved, players, ids, n, i + 1).Kept? {
          forall j | 1 <= j <= m ensures FirstTarget(Travelled(b, j, n), players, ids).None? {
            TravelledFirst(b, j, n);
          }
        } else {
          var k :| 1 <= k <= m - 1 && !FirstTarget(Travelled(moved, k, n), players, ids).None?;
          TravelledFirst(b, k + 1, n);
          assert !FirstTarget(Travelled(b, k + 1, n), players, ids).None?;
        }
      } else {
        TravelledFirst(b, 1, n);
      }
    }
  }

  lemma TravelledFirst(b: Bullet, j: nat, n: nat)
    requires 1 <= j && n > 0
    ensures Travelled(b, j, n) == Travelled(Move(b, n), j - 1, n)
    ensures j == 1 ==> Travelled(b, j, n) == Move(b, n)
  {
  }

  /** A bullet stays in play exactly when it starts inside the arena and none of its
      sub-step positions touches a living player other than its owner. */
  lemma TickBulletKeptIffClear(b: Bullet, players: map<SocketId, Player>, ids: seq<SocketId>)
    requires b.radius > 0.0
    ensures TickBullet(b, players, ids).Kept? <==>
      !OutOfBounds(b) &&
      forall j | 1 <= j <= StepCount(b) :: FirstTarget(Travelled(b, j, StepCount(b)), players, ids).None?
  {
    if !OutOfBounds(b) {
      SubStepsKeptIffClear(b, players, ids, StepCount(b), 0);
    }
  }

  lemma KillOnlyKills(players: map<SocketId, Player>, v: SocketId)
    requires v in players && players[v].alive
    ensures OnlyKilled(players, Kill(players, v))
  {
  }

  lemma OnlyKilledTransitive(a: map<SocketId, Player>, b: map<SocketId, Player>, c: map<SocketId, Player>)
    requires OnlyKilled(a, b) && OnlyKilled(b, c)
    ensures OnlyKilled(a, c)
  {
    forall id | id in a
      ensures c[id] == a[id] || (a[id].alive && c[id] == a[id].(alive := false))
    {
      assert id in b;
    }
  }

  /** A tick never seats or unseats anyone and changes a player only by killing them. */
  lemma {:induction false} TickOnlyKills(bs: seq<Bullet>, players: map<SocketId, Player>, ids: seq<SocketId>)
    requires AllPositive(bs)
    ensures OnlyKilled(players, TickBullets(bs, players, ids).players)
    decreases |bs|
  {
    if bs != [] {
      assert AllPositive(bs[1..]) by {
        forall i | 0 <= i < |bs[1..]| ensures bs[1..][i].radius > 0.0 {
          assert bs[1..][i] == bs[i + 1];
        }
      }
      var f := TickBullet(bs[0], players, ids);
      var after := if f.Hit? then Kill(players, f.victim) else players;
      if f.Hit? {
        KillOnlyKills(players, f.victim);
      }
      TickOnlyKills(bs[1..], after, ids);
      OnlyKilledTransitive(players, after, TickBullets(bs[1..], after, ids).players);
    }
  }

  lemma TailPositive(bs: seq<Bullet>)
    requires bs != [] && AllPositive(bs)
    ensures AllPositive(bs[1..])
  {
    forall i | 0 <= i < |bs[1..]| ensures bs[1..][i].radius > 0.0 {
      assert bs[1..][i] == bs[i + 1];
    }
  }

  /** Line 178: a player is never killed by a bullet of their own. */
  lemma {:induction false} OwnBulletsHarmless(bs: seq<Bullet>, players: map<SocketId, Player>, ids: seq<SocketId>, o: SocketId)
    requires AllPositive(bs) && o in players
    requires forall i | 0 <= i < |bs| :: bs[i].owner == o
    ensures o in TickBullets(bs, players, ids).players
    ensures TickBullets(bs, players, ids).players[o] == players[o]
    decreases |bs|
  {
    if bs != [] {
      TailPositive(bs);
      var f := TickBullet(bs[0], players, ids);
      var after := if f.Hit? then Kill(players, f.victim) else players;
      assert o in after && after[o] == players[o];
      forall i | 0 <= i < |bs[1..]| ensures bs[1..][i].owner == o {
        assert bs[1..][i] == bs[i + 1];
      }
      OwnBulletsHarmless(bs[1..], after, ids, o);
    }
  }

  /** The bullets still in play after a tick are, in order, some of the reference
      survivors: the in-bounds bullets, each carried through all of its sub-steps. */
  lemma {:induction false} TickKeepsSurvivorsInOrder(bs: seq<Bullet>, players: map<SocketId, Player>, ids: seq<SocketId>)
    requires AllPositive(bs)
    ensures Subseq(TickBullets(bs, players, ids).kept, Survivors(bs))
    decreases |bs|
  {
    if bs != [] {
      TailPositive(bs);
      var f := TickBullet(bs[0], players, ids);
      var after := if f.Hit? then Kill(players, f.victim) else players;
      var rest := TickBullets(bs[1..], after, ids);
      TickKeepsSurvivorsInOrder(bs[1..], after, ids);
      var s := Survivors(bs);
      if !OutOfBounds(bs[0]) {
        assert s[1..] == Survivors(bs[1..]);
        if f.Kept? {
          var k := TickBullets(bs, players, ids).kept;
          assert k[0] == s[0] && k[1..] == rest.kept;
        }
      }
    }
  }

  predicate AllDead(players: map<SocketId, Player>)
  {
    forall id | id in players :: !players[id].alive
  }

  lemma {:induction false} NoTargetKeepsMoving(b: Bullet, players: map<SocketId, Player>, ids: seq<SocketId>, n: nat, i: nat)
    requires i <= n && AllDead(players)
    ensures SubSteps(b, players, ids, n, i) == Kept(Travelled(b, n - i, n))
    decreases n - i
  {
    if i < n {
      NoTargetKeepsMoving(Move(b, n), players, ids, n, i + 1);
    }
  }

  /** Once both players are dead (the match is over but not yet cleaned up), a tick only
      moves the bullets: the kept list is exactly the survivors and nobody changes. */
  lemma {:induction false} DeadRoomOnlyMovesBullets(bs: seq<Bullet>, players: map<SocketId, Player>, ids: seq<SocketId>)
    requires AllPositive(bs) && AllDead(players)
    ensures TickBullets(bs, players, ids) == TickResult(Survivors(bs), players)
    decreases |bs|
  {
    if bs != [] {
      TailPositive(bs);
      if !OutOfBounds(bs[0]) {
        NoTargetKeepsMoving(bs[0], players, ids, StepCount(bs[0]), 0);
      }
      DeadRoomOnlyMovesBullets(bs[1..], players, ids);
    }
  }

  /** Moving a bullet keeps its tags. */
  lemma {:induction false} SurvivorsTagged(bs: seq<Bullet>, players: map<SocketId, Player>, next: nat)
    requires AllPositive(bs)
    requires forall i | 0 <= i < |bs| :: BulletTagged(bs[i], players, next)
    requires IncreasingIds(bs)
    ensures forall i | 0 <= i < |Survivors(bs)| :: BulletTagged(Survivors(bs)[i], players, next)
    ensures IncreasingIds(Survivors(bs))
    ensures forall i | 0 <= i < |Survivors(bs)| :: Survivors(bs)[i].id >= (if bs == [] then 0 else bs[0].id)
    decreases |bs|
  {
    if bs != [] {
      TailPositive(bs);
      var t := bs[1..];
      assert forall i | 0 <= i < |t| :: t[i] == bs[i + 1];
      assert IncreasingIds(t);
      SurvivorsTagged(t, players, next);
      if t != [] {
        assert bs[0].id < t[0].id;
      }
    }
  }

  lemma {:induction false} SubseqKeepsTags(a: seq<Bullet>, b: seq<Bullet>, players: map<SocketId, Player>, next: nat)
    requires Subseq(a, b)
    requires forall i | 0 <= i < |b| :: BulletTagged(b[i], players, next)
    ensures forall i | 0 <= i < |a| :: BulletTagged(a[i], players, next)
  {
    SubseqMembers(a, b);
    forall i | 0 <= i < |a| ensures BulletTagged(a[i], players, next) {
      assert a[i] in b;
    }
  }

  lemma {:induction false} SubseqIncreasing(a: seq<Bullet>, b: seq<Bullet>)
    requires Subseq(a, b) && IncreasingIds(b)
    ensures IncreasingIds(a)
    ensures forall i | 0 <= i < |a| :: exists j | 0 <= j < |b| :: a[i] == b[j]
    decreases |b|
  {
    if a != [] {
      assert b != [];
      var t := b[1..];
      assert forall i | 0 <= i < |t| :: t[i] == b[i + 1];
      assert IncreasingIds(t);
      if a[0] == b[0] && Subseq(a[1..], t) {
        SubseqIncreasing(a[1..], t);
        forall i | 0 <= i < |a| ensures exists j | 0 <= j < |b| :: a[i] == b[j] {
          if i == 0 {
            assert a[0] == b[0];
          } else {
            assert a[i] == a[1..][i - 1];
            var j :| 0 <= j < |t| && a[1..][i - 1] == t[j];
            assert a[i] == b[j + 1];
          }
        }
        forall i, j | 0 <= i < j < |a| ensures a[i].id < a[j].id {
          assert a[j] == a[1..][j - 1];
          var k :| 0 <= k < |t| && a[1..][j - 1] == t[k];
          if i == 0 {
            assert b[0].id < b[k + 1].id;
          } else {
            assert a[i] == a[1..][i - 1];
          }
        }
      } else {
        SubseqIncreasing(a, t);
        forall i | 0 <= i < |a| ensures exists j | 0 <= j < |b| :: a[i] == b[j] {
          var j :| 0 <= j < |t| && a[i] == t[j];
          assert a[i] == b[j + 1];
        }
      }
    }
  }

  lemma RoomValidPositive(room: Room, next: nat)
    requires RoomValid(room, next)
    ensures AllPositive(room.bullets)
  {
    forall i | 0 <= i < |room.bullets| ensures room.bullets[i].radius > 0.0 {
      assert BulletTagged(room.bullets[i], room.players, next);
    }
  }

  lemma TaggedUnderSameSeats(bs: seq<Bullet>, p: map<SocketId, Player>, q: map<SocketId, Player>, next: nat)
    requires p.Keys == q.Keys
    requires forall i | 0 <= i < |bs| :: BulletTagged(bs[i], p, next)
    ensures forall i | 0 <= i < |bs| :: BulletTagged(bs[i], q, next)
  {
    forall i | 0 <= i < |bs| ensures BulletTagged(bs[i], q, next) {
      assert BulletTagged(bs[i], p, next);
      assert bs[i].owner in p.Keys;
    }
  }

  /** A tick keeps the room invariant. */
  lemma TickPreservesRoom(room: Room, next: nat)
    requires RoomValid(room, next)
    ensures AllPositive(room.bullets)
    ensures RoomValid(TickRoom(room), next)
  {
    RoomValidPositive(room, next);
    var t := TickBullets(room.bullets, room.players, room.order);
    TickOnlyKills(room.bullets, room.players, room.order);
    TickKeepsSurvivorsInOrder(room.bullets, room.players, room.order);
    SurvivorsTagged(room.bullets, room.players, next);
    SubseqKeepsTags(t.kept, Survivors(room.bullets), room.players, next);
    SubseqIncreasing(t.kept, Survivors(room.bullets));
    TaggedUnderSameSeats(t.kept, room.players, t.players, next);
    var r := TickRoom(room);
    forall id | id in r.players ensures StandardPlayer(r.players[id]) {
      assert id in room.players;
      assert StandardPlayer(room.players[id]);
    }
  }

  /** Every survivor is an in-bounds bullet of the list, carried through its sub-steps. */
  lemma {:induction false} SurvivorOrigin(bs: seq<Bullet>)
    requires AllPositive(bs)
    ensures forall i | 0 <= i < |Survivors(bs)| :: exists j | 0 <= j < |bs| ::
      !OutOfBounds(bs[j]) && Survivors(bs)[i] == Travelled(bs[j], StepCount(bs[j]), StepCount(bs[j]))
    decreases |bs|
  {
    if bs != [] {
      TailPositive(bs);
      SurvivorOrigin(bs[1..]);
      var s := Survivors(bs);
      var t := Survivors(bs[1..]);
      forall i | 0 <= i < |s| ensures exists j | 0 <= j < |bs| ::
        !OutOfBounds(bs[j]) && s[i] == Travelled(bs[j], StepCount(bs[j]), StepCount(bs[j]))
      {
        if !OutOfBounds(bs[0]) && i == 0 {
          assert !OutOfBounds(bs[0]) && s[i] == Travelled(bs[0], StepCount(bs[0]), StepCount(bs[0]));
        } else {
          var m := if OutOfBounds(bs[0]) then i else i - 1;
          assert s[i] == t[m];
          var j :| 0 <= j < |bs[1..]| && !OutOfBounds(bs[1..][j]) &&
            t[m] == Travelled(bs[1..][j], StepCount(bs[1..][j]), StepCount(bs[1..][j]));
          assert bs[1..][j] == bs[j + 1];
          assert !OutOfBounds(bs[j + 1]) && s[i] == Travelled(bs[j + 1], StepCount(bs[j + 1]), StepCount(bs[j + 1]));
        }
      }
    } else {
      assert Survivors(bs) == [];
    }
  }

  /** Line 167: a bullet that starts the tick outside the arena is gone afterwards; no
      kept bullet carries its id. */
  lemma OutOfBoundsGone(bs: seq<Bullet>, players: map<SocketId, Player>, ids: seq<SocketId>, k: nat)
    requires AllPositive(bs) && IncreasingIds(bs)
    requires k < |bs| && OutOfBounds(bs[k])
    ensures forall i | 0 <= i < |TickBullets(bs, players, ids).kept| ::
      TickBullets(bs, players, ids).kept[i].id != bs[k].id
  {
    var kept := TickBullets(bs, players, ids).kept;
    var s := Survivors(bs);
    TickKeepsSurvivorsInOrder(bs, players, ids);
    SubseqMembers(kept, s);
    SurvivorOrigin(bs);
    forall i | 0 <= i < |kept| ensures kept[i].id != bs[k].id {
      assert kept[i] in s;
      var m :| 0 <= m < |s| && s[m] == kept[i];
      var j :| 0 <= j < |bs| && !OutOfBounds(bs[j]) && s[m] == Travelled(bs[j], StepCount(bs[j]), StepCount(bs[j]));
      assert kept[i].id == bs[j].id;
      assert j != k;
      if j < k {
        assert bs[j].id < bs[k].id;
      } else {
        assert bs[k].id < bs[j].id;
      }
    }
  }

  /** Lines 186-188: a bullet's hit is its first contact. The victim is the first target,
      in enumeration order, at sub-step j, and no earlier sub-step position has a target. */
  lemma {:induction false} SubStepsHitIsFirstContact(b: Bullet, players: map<SocketId, Player>, ids: seq<SocketId>, n: nat, i: nat)
    returns (j: nat)
    requires i <= n && SubSteps(b, players, ids, n, i).Hit?
    ensures 1 <= j <= n - i
    ensures FirstTarget(Travelled(b, j, n), players, ids) == Some(SubSteps(b, players, ids, n, i).victim)
    ensures forall j' | 1 <= j' < j :: FirstTarget(Travelled(b, j', n), players, ids).None?
    decreases n - i
  {
    var v := SubSteps(b, players, ids, n, i).victim;
    var moved := Move(b, n);
    TravelledFirst(b, 1, n);
    if FirstTarget(moved, players, ids).Some? {
      j := 1;
    } else {
      assert SubSteps(b, players, ids, n, i) == SubSteps(moved, players, ids, n, i + 1);
      var k := SubStepsHitIsFirstContact(moved, players, ids, n, i + 1);
      j := k + 1;
      TravelledFirst(b, j, n);
      forall j' | 1 <= j' < j ensures FirstTarget(Travelled(b, j', n), players, ids).None? {
        TravelledFirst(b, j', n);
      }
    }
  }

  /** The victim of a bullet's hit overlaps the bullet at the first sub-step with any
      target and is there the earliest target in enumeration order. */
  lemma TickBulletHitIsFirstContact(b: Bullet, players: map<SocketId, Player>, ids: seq<SocketId>)
    requires b.radius > 0.0 && TickBullet(b, players, ids).Hit?
    ensures var n := StepCount(b);
      exists j | 1 <= j <= n ::
        && FirstTarget(Travelled(b, j, n), players, ids) == Some(TickBullet(b, players, ids).victim)
        && Overlaps(Travelled(b, j, n), players[TickBullet(b, players, ids).victim])
        && forall j' | 1 <= j' < j :: FirstTarget(Travelled(b, j', n), players, ids).None?
  {
    var n := StepCount(b);
    var v := TickBullet(b, players, ids).victim;
    assert SubSteps(b, players, ids, n, 0) == TickBullet(b, players, ids);
    var j := SubStepsHitIsFirstContact(b, players, ids, n, 0);
    assert IsTarget(Travelled(b, j, n), players, v);
  }

  /** Line 187 for the first bullet of the list: its victim stays dead for the rest of
      the tick. */
  lemma HeadHitKillsVictim(bs: seq<Bullet>, players: map<SocketId, Player>, ids: seq<SocketId>, v: SocketId)
    requires AllPositive(bs) && bs != [] && TickBullet(bs[0], players, ids) == Hit(v)
    ensures v in players && players[v].alive
    ensures v in TickBullets(bs, players, ids).players && !TickBullets(bs, players, ids).players[v].alive
  {
    TailPositive(bs);
    var after := Kill(players, v);
    TickOnlyKills(bs[1..], after, ids);
  }

  /** The converse: a player who was alive before the tick and is dead after it was the
      hit victim of some bullet that is not theirs, in the state that bullet saw. */
  lemma {:induction false} DeathHasAShooter(bs: seq<Bullet>, players: map<SocketId, Player>, ids: seq<SocketId>, id: SocketId)
    requires AllPositive(bs) && id in players && players[id].alive
    requires !TickBullets(bs, players, ids).players[id].alive
    ensures exists k | 0 <= k < |bs| ::
      bs[k].owner != id && TickBullet(bs[k], PlayersAt(bs, players, ids, k), ids) == Hit(id)
    decreases |bs|
  {
    assert bs != [];
    TailPositive(bs);
    var f := TickBullet(bs[0], players, ids);
    var after := if f.Hit? then Kill(players, f.victim) else players;
    if f == Hit(id) {
      assert PlayersAt(bs, players, ids, 0) == players;
    } else {
      assert after[id] == players[id];
      DeathHasAShooter(bs[1..], after, ids, id);
      var k :| 0 <= k < |bs[1..]| && bs[1..][k].owner != id &&
        TickBullet(bs[1..][k], PlayersAt(bs[1..], after, ids, k), ids) == Hit(id);
      assert bs[k + 1] == bs[1..][k];
      assert PlayersAt(bs, players, ids, k + 1) == PlayersAt(bs[1..], after, ids, k);
    }
  }

  /** In a valid room only the seat that does not own a bullet can be killed by it: the
      shooter's opponent. */
  lemma OnlyTheOpponentDies(room: Room, next: nat, k: nat)
    requires RoomValid(room, next) && AllPositive(room.bullets) && k < |room.bullets|
    requires TickBullet(room.bullets[k], PlayersAt(room.bullets, room.players, room.order, k), room.order).Hit?
    ensures var v := TickBullet(room.bullets[k], PlayersAt(room.bullets, room.players, room.order, k), room.order).victim;
      v in room.order && v != room.bullets[k].owner && room.bullets[k].owner in room.order
  {
    assert BulletTagged(room.bullets[k], room.players, next);
  }

  /** The tick seen from bullet k on: the players at the end are those the rest of the
      list leaves, starting from the players bullet k sees. */
  lemma {:induction false} TickFrom(bs: seq<Bullet>, players: map<SocketId, Player>, ids: seq<SocketId>, k: nat)
    requires AllPositive(bs) && k <= |bs|
    ensures AllPositive(bs[k..])
    ensures TickBullets(bs, players, ids).players ==
      TickBullets(bs[k..], PlayersAt(bs, players, ids, k), ids).players
    decreases k
  {
    if k == 0 {
      assert bs[0..] == bs;
    } else {
      TailPositive(bs);
      var f := TickBullet(bs[0], players, ids);
      var after := if f.Hit? then Kill(players, f.victim) else players;
      TickFrom(bs[1..], after, ids, k - 1);
      assert bs[1..][k - 1..] == bs[k..];
    }
  }

  /** Line 187: whichever bullet of the list hits, its victim was alive when that bullet
      was examined and is dead at the end of the tick. */
  lemma HitKillsVictim(bs: seq<Bullet>, players: map<SocketId, Player>, ids: seq<SocketId>, k: nat, v: SocketId)
    requires AllPositive(bs) && k < |bs|
    requires TickBullet(bs[k], PlayersAt(bs, players, ids, k), ids) == Hit(v)
    ensures v in players && PlayersAt(bs, players, ids, k)[v].alive
    ensures !TickBullets(bs, players, ids).players[v].alive
  {
    TickFrom(bs, players, ids, k);
    var rest := bs[k..];
    assert rest[0] == bs[k];
    HeadHitKillsVictim(rest, PlayersAt(bs, players, ids, k), ids, v);
  }

  /** Lines 166-193: a bullet remains after the tick exactly when it is what some bullet of
      the list became, in the state that bullet saw, after all of its sub-steps without
      a hit. */
  lemma {:induction false} KeptExactly(bs: seq<Bullet>, players: map<SocketId, Player>, ids: seq<SocketId>, c: Bullet)
    requires AllPositive(bs)
    ensures c in TickBullets(bs, players, ids).kept <==>
      exists k | 0 <= k < |bs| :: TickBullet(bs[k], PlayersAt(bs, players, ids, k), ids) == Kept(c)
    decreases |bs|
  {
    if bs != [] {
      TailPositive(bs);
      var f := TickBullet(bs[0], players, ids);
      var after := if f.Hit? then Kill(players, f.victim) else players;
      var rest := TickBullets(bs[1..], after, ids);
      KeptExactly(bs[1..], after, ids, c);
      assert PlayersAt(bs, players, ids, 0) == players;
      if c in TickBullets(bs, players, ids).kept {
        if f != Kept(c) {
          assert c in rest.kept;
          var j :| 0 <= j < |bs[1..]| && TickBullet(bs[1..][j], PlayersAt(bs[1..], after, ids, j), ids) == Kept(c);
          assert bs[1..][j] == bs[j + 1];
          assert PlayersAt(bs, players, ids, j + 1) == PlayersAt(bs[1..], after, ids, j);
        }
      }
      if exists k | 0 <= k < |bs| :: TickBullet(bs[k], PlayersAt(bs, players, ids, k), ids) == Kept(c) {
        var k :| 0 <= k < |bs| && TickBullet(bs[k], PlayersAt(bs, players, ids, k), ids) == Kept(c);
        if k > 0 {
          assert bs[1..][k - 1] == bs[k];
          assert PlayersAt(bs, players, ids, k) == PlayersAt(bs[1..], after, ids, k - 1);
          assert c in rest.kept;
        }
      }
    }
  }

  /** Lines 167 and 188: a bullet that leaves the arena or hits someone is removed; with
      distinct ids, no bullet kept after the tick carries its id. */
  lemma SpentBulletGone(bs: seq<Bullet>, players: map<SocketId, Player>, ids: seq<SocketId>, k: nat)
    requires AllPositive(bs) && IncreasingIds(bs) && k < |bs|
    requires !TickBullet(bs[k], PlayersAt(bs, players, ids, k), ids).Kept?
    ensures forall i | 0 <= i < |TickBullets(bs, players, ids).kept| ::
      TickBullets(bs, players, ids).kept[i].id != bs[k].id
  {
    var kept := TickBullets(bs, players, ids).kept;
    forall i | 0 <= i < |kept| ensures kept[i].id != bs[k].id {
      KeptExactly(bs, players, ids, kept[i]);
      var j :| 0 <= j < |bs| && TickBullet(bs[j], PlayersAt(bs, players, ids, j), ids) == Kept(kept[i]);
      assert kept[i].id == bs[j].id;
      assert j != k;
      if j < k {
        assert bs[j].id < bs[k].id;
      } else {
        assert bs[k].id < bs[j].id;
      }
    }
  }

  /** One `updateRoom` call, bullet by bullet: each bullet's fate in the state it saw decides
      the room afterwards. A kept bullet is in the new list, a victim is dead, and a spent
      bullet is gone. */
  lemma TickRoomOutcome(room: Room, next: nat, k: nat)
    requires RoomValid(room, next) && k < |room.bullets|
    ensures AllPositive(room.bullets)
    ensures var f := TickBullet(room.bullets[k], PlayersAt(room.bullets, room.players, room.order, k), room.order);
      && (f.Kept? ==> f.bullet in TickRoom(room).bullets)
      && (f.Hit? ==> f.victim in room.players && !TickRoom(room).players[f.victim].alive)
      && (!f.Kept? ==> forall i | 0 <= i < |TickRoom(room).bullets| :: TickRoom(room).bullets[i].id != room.bullets[k].id)
  {
    RoomValidPositive(room, next);
    var bs := room.bullets;
    var f := TickBullet(bs[k], PlayersAt(bs, room.players, room.order, k), room.order);
    if f.Kept? {
      KeptExactly(bs, room.players, room.order, f.bullet);
    }
    if f.Hit? {
      HitKillsVictim(bs, room.players, room.order, k, f.victim);
    }
    if !f.Kept? {
      SpentBulletGone(bs, room.players, room.order, k);
    }
  }
}
