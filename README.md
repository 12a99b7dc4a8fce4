# Darkforest match engine in Dafny

Darkforest is a two-player browser game. It is played in the dark: each player carries a
flashlight and fires bullets at the other. The server (`Darkforest/server.js`) owns all
game state:

- a matchmaking queue of socket ids;
- a table of rooms, each holding two players and a list of bullets;
- the room each socket was seated in;
- a global bullet id counter;
- a count of online sockets.

Socket events change that state:

- `joinQueue`, `mousemove`, `input`, `fire`, `disconnect` and `gameOver`;
- a 50 ms timer runs `updateRoom` on every room. `updateRoom` moves the bullets in sub-steps
  and kills the first living non-owner player a bullet touches.

This project models that engine and proves what it guarantees.

- `arena.dfy` (`Arena`) holds the arena size and the bullet constants. It also has the
  `Math.max(lo, Math.min(hi, v))` clamp and the `Math.hypot` relation.
- `seqs.dfy` (`Seqs`) defines duplicate-free sequences and order-preserving subsequences.
- `matchmaking.dfy` (`Matchmaking`) models the queue as values. `Join` is one `joinQueue`
  step, `Without` is the `disconnect` filter, and `JoinAll` is a run of arrivals.
- `entities.dfy` (`Entities`) has the records: players, bullets and rooms. It also has the
  room created by a pairing, `Steer` (the effect of `input`) and `Launch` (the bullet `fire`
  creates). `RoomValid` is the room invariant.
- `physics.dfy` (`Physics`) gives the tick as specification functions:
  - the bounds test and the circle test;
  - the first target in key order;
  - the sub-step count, which is `Math.ceil(hypot / radius)` in exact arithmetic;
  - the sub-step loop (`SubSteps`) and the fate of one bullet (`TickBullet`);
  - the whole filter (`TickBullets`), with deaths threaded from bullet to bullet;
  - `Survivors`, an independent reference for the bullets that can remain.
- `tick.dfy` (`Tick`) proves what `updateRoom` promises about each bullet and each player:
  - which bullets remain (`KeptExactly`), and that a spent bullet is gone (`SpentBulletGone`);
  - that every hit kills its victim (`HitKillsVictim`), and that every death has a shooter
    (`DeathHasAShooter`);
  - that the room invariant is kept.
- `server.dfy` (`MatchServer`) has the imperative side.
  - `class Server` has the fields `queue`, `rooms`, `roomOf`, `nextBulletId` and
    `onlineCount`. It has one method per handler, plus `UpdateRoom` and `TickAll`.
  - Each method states its whole new state and keeps `Valid()`: the queue is duplicate-free
    with at most one waiting id, and every room is valid.
  - The loops of `updateRoom` are separate methods: `FilterBullets`, `FilterBullet` and
    `FindTarget`. Each is proved equal to its specification function.

Coordinates and speeds are exact reals. The sources of randomness and floating point are
parameters:

- spawn coordinates (`Math.random()`);
- the aim distance handed to `fire`, which must satisfy the `Math.hypot` relation.

A JavaScript object enumerates its string keys in insertion order, unless a key is an
array index such as "7". Socket.io ids are 20-character random strings, never array
indices, so a room's players enumerate in the order they were created. The room keeps that
order, and the collision scan follows it.

When a player fires at their own position, the source divides by zero. Both `speedX` and
`speedY` become NaN. The bullet's position is still the player's finite position, so the
bounds test, which reads only the position, keeps it. The hypot of two NaNs is NaN, so
`steps` is NaN, and `i < NaN` is false, so the sub-step loop runs zero times. The bullet never moves and never
hits anyone, and it stays in the room for good. The model gives the bullet a zero velocity
instead. A bullet at rest also takes zero sub-steps (`RestingBulletHasNoSteps`) and is
kept where it is (`SubSteps` with `i == n`), so the observable behaviour is the same.

## Model

| member | source | states |
|---|---|---|
| Arena.Clamp | Darkforest/server.js:115-117 | the clamped value is at least `lo`, at most `hi` when the range is non-empty, unchanged inside the range, and equal to the violated bound outside it |
| Matchmaking.Enqueue | Darkforest/server.js:42 | the id is queued afterwards; membership grows by exactly that id; a duplicate-free queue stays duplicate-free; the queue grows by at most one, at its end |
| Matchmaking.Join | Darkforest/server.js:42-46 | pairing happens exactly when the queue reaches two; the queue after the push is the two paired ids followed by the rest; the first paired id is the oldest; the paired ids differ and are no longer queued; at most one id waits when at most one waited |
| Matchmaking.Without | Darkforest/server.js:145 | the id is gone; every other id stays; the result keeps the original order (a subsequence) |
| Matchmaking.WithoutAbsent | Darkforest/server.js:145 | removing an id that is not queued leaves the queue unchanged |
| Matchmaking.RejoinAfterLeave | Darkforest/server.js:42-46 | leaving and then rejoining still yields an id list without duplicates |
| Matchmaking.ArrivalOrder | Darkforest/server.js:41-47 | for any run of distinct arrivals, the rooms created, read pair by pair, followed by the waiting ids, are exactly the ids in arrival order (FIFO pairing) |
| Matchmaking.ArrivalsAccounted | Darkforest/server.js:41-47 | for any run of arrivals, repeats and rejoins included, an id is in a room formed during the run or still waiting exactly when it was queued or arrived |
| Entities.RoomName | Darkforest/server.js:48 | the room id is "room-", then the first id, then "-", then the second id |
| Entities.Spawn | Darkforest/server.js:59-85 | a new player stands at the spawn point with aim (0, 0), the given color, radius 15, speed 4, vision 100, a flashlight arc of 0.1 pi switched off, and alive |
| Entities.NewRoom | Darkforest/server.js:58-88 | the room seats exactly the two paired ids in that order, with "blue" and "red" players at the given spawn points; both are alive, with radius 15, speed 4, vision 100, a flashlight arc of 0.1 pi, the flashlight off and aim (0, 0); the bullet list is empty |
| Entities.NewRoomValid | Darkforest/server.js:58-88 | a freshly created room satisfies the room invariant |
| Entities.Steer | Darkforest/server.js:108-117 | only position and flashlight change; the flashlight equals the space key; the position lies in `[radius, bound - radius]`; inside that range it is exactly the old position plus `speed` per pressed key, with opposite keys cancelling; a step past a wall lands exactly on the nearest bound |
| Entities.SteerInArena | Darkforest/server.js:115-117 | a standard player ends every `input` event inside [15, 1265] x [15, 705] |
| Entities.SteerIdleKeepsPosition | Darkforest/server.js:108-117 | with no net movement key pressed, a player inside the arena stays put |
| Entities.Launch | Darkforest/server.js:125-138 | the bullet has the given id and owner, the standard size and the player's position; a zero aim distance gives a bullet at rest |
| Entities.ScaledVelocity | Darkforest/server.js:125-136 | scaling an offset of length `dist` by `speed / dist` gives a vector of length `speed` that points along the offset |
| Entities.LaunchTowardsAim | Darkforest/server.js:125-136 | a bullet fired at an aim point at positive distance travels exactly `bulletSpeed` per tick, along the unit vector towards the aim point |
| Physics.OutOfBounds | Darkforest/server.js:167 | a bullet is out of bounds exactly when its position lies outside [0, 1280] x [0, 720] |
| Physics.OverlapsDependsOnOffset | Darkforest/server.js:182-186 | the circle test `dx*dx + dy*dy < r*r` depends only on the offset between bullet and player and on the sum of their radii |
| Physics.FirstTarget | Darkforest/server.js:176-190 | a reported id is in the scan order and is a target: seated, not the owner, alive and overlapping; nothing is reported exactly when no id in the order is a target |
| Physics.FirstTargetIsEarliest | Darkforest/server.js:176-189 | the reported target is the earliest target in enumeration order |
| Physics.StepCount | Darkforest/server.js:169-170 | the count of sub-steps covers the velocity, and one fewer does not |
| Physics.StepCountIsCeiling | Darkforest/server.js:169-170 | the sub-step count covers the velocity (`n * radius >= |v|`) and no smaller count does, so it is the ceiling of `|v| / radius` |
| Physics.SubStepWithinRadius | Darkforest/server.js:169-174 | one sub-step moves a bullet by at most its radius (no tunnelling through the collision test) |
| Physics.RestingBulletHasNoSteps | Darkforest/server.js:169-172 | a bullet at rest takes zero sub-steps |
| Physics.FiredBulletSteps | Darkforest/server.js:128-136 | a standard bullet moving at `bulletSpeed` takes exactly 50 sub-steps |
| Physics.Move | Darkforest/server.js:173-174 | one sub-step changes only the position, by a 1/n share of the velocity on each axis |
| Physics.Travelled | Darkforest/server.js:172-174 | sub-stepping changes only a bullet's position |
| Physics.TravelledClosedForm | Darkforest/server.js:172-174 | after j of n sub-steps, a bullet has moved by j/n of its velocity |
| Physics.FullTravel | Darkforest/server.js:172-174 | after all n sub-steps, a bullet has moved by exactly its velocity |
| Physics.SubSteps | Darkforest/server.js:172-191 | a hit names a seated, living player other than the owner; a kept bullet has completed the remaining sub-steps |
| Physics.TickBullet | Darkforest/server.js:166-193 | a bullet is dropped exactly when it starts out of bounds; a hit names a seated, living non-owner; a kept bullet has travelled all of its sub-steps |
| Physics.Kill | Darkforest/server.js:187 | only the victim changes, and only by being marked dead |
| Physics.TickBullets | Darkforest/server.js:166-193 | the filter keeps the set of seats and keeps at most as many bullets as it started with |
| Physics.PlayersAt | Darkforest/server.js:166-189 | the players as each bullet of the filter sees them keep the same seats |
| Physics.TickRoom | Darkforest/server.js:162-193 | a tick keeps the room's seats and enumeration order and does not add bullets |
| Tick.SubStepsKeptIffClear | Darkforest/server.js:172-191 | from any sub-step on, a bullet is kept exactly when none of its remaining positions touches a target |
| Tick.TickBulletKeptIffClear | Darkforest/server.js:166-192 | a bullet survives the tick exactly when it starts in bounds and no sub-step position touches a living non-owner |
| Tick.SubStepsHitIsFirstContact | Darkforest/server.js:172-189 | a hit is reported at a sub-step j whose position has the victim as its first target, and no earlier sub-step position has any target |
| Tick.TickBulletHitIsFirstContact | Darkforest/server.js:166-189 | the victim of a bullet's hit overlaps the bullet at the first sub-step with any target and is there the earliest target in enumeration order |
| Tick.HitKillsVictim | Darkforest/server.js:186-188 | whichever bullet of the list hits, its victim was alive in the state that bullet saw and is dead at the end of the tick |
| Tick.TickFrom | Darkforest/server.js:166-193 | the players at the end of the tick are those the bullets from k on leave, starting from the players bullet k sees |
| Tick.KeptExactly | Darkforest/server.js:166-193 | a bullet remains after the tick exactly when some bullet of the list, in the state it saw, completed all its sub-steps without a hit and became it |
| Tick.SpentBulletGone | Darkforest/server.js:167-188 | with increasing ids, no bullet kept after the tick carries the id of a bullet that left the arena or hit someone |
| Tick.TickRoomOutcome | Darkforest/server.js:162-193 | in a valid room, each bullet's fate in the state it saw decides the room afterwards: a kept bullet is in the new list, a victim is dead, a spent bullet's id is gone |
| Tick.DeathHasAShooter | Darkforest/server.js:176-189 | a player alive before the tick and dead after it was the hit victim of a bullet that is not theirs, in the state that bullet saw |
| Tick.OnlyTheOpponentDies | Darkforest/server.js:177-187 | in a valid room, a bullet's victim is the seat other than its owner |
| Tick.TickOnlyKills | Darkforest/server.js:176-189 | a tick keeps the set of seats; each player is either unchanged, or was alive and is now the same player marked dead (`alive` only goes from true to false; position and aim are untouched) |
| Tick.OwnBulletsHarmless | Darkforest/server.js:177 | bullets owned by one player never change that player |
| Tick.TickKeepsSurvivorsInOrder | Darkforest/server.js:166-193 | the kept bullets are an order-preserving subsequence of the in-bounds bullets, each carried through all of its sub-steps |
| Tick.OutOfBoundsGone | Darkforest/server.js:167 | no bullet kept after the tick carries the id of a bullet that started out of bounds |
| Tick.DeadRoomOnlyMovesBullets | Darkforest/server.js:176-180 | in a room where every player is dead, a tick keeps exactly the reference survivors and changes no player |
| Tick.TickPreservesRoom | Darkforest/server.js:162-193 | a tick keeps the room invariant: same two seats, standard players, tagged bullets with increasing ids |
| MatchServer.FindTarget | Darkforest/server.js:176-190 | the player loop returns the first target in enumeration order, or nothing |
| MatchServer.FilterBullet | Darkforest/server.js:166-193 | the bounds test and the sub-step loop compute the bullet's fate as `TickBullet` defines it |
| MatchServer.FilterBullets | Darkforest/server.js:166-193 | the filter over the bullet list computes the kept list and the players as `TickBullets` defines them |
| MatchServer.ApplyInput | Darkforest/server.js:108-117 | the sequential key updates, flashlight update and clamp compute `Steer` |
| MatchServer.RoomValidFire | Darkforest/server.js:130-138 | appending a bullet whose id is the current counter keeps the ids increasing and the room valid under the incremented counter |
| MatchServer.Server.constructor | Darkforest/server.js:30-34 | the server starts with an empty queue and room table, no seats, and both counters at zero |
| MatchServer.Server.Connect | Darkforest/server.js:37 | the online count goes up by one and nothing else changes |
| MatchServer.Server.JoinQueue | Darkforest/server.js:41-94 | the queue becomes `Join(...).rest`; on pairing, room `room-p1-p2` is (re)created as `NewRoom` and both sockets point to it; otherwise rooms and seats are unchanged; the invariant holds |
| MatchServer.Server.Mousemove | Darkforest/server.js:96-101 | a seated socket's player gets the new aim point and nothing else changes; an unseated socket changes nothing |
| MatchServer.Server.Input | Darkforest/server.js:103-118 | a seated socket's player becomes `Steer(player, keys)`; an unseated socket changes nothing |
| MatchServer.Server.Fire | Darkforest/server.js:120-139 | a seated socket appends `Launch(player, dist, old counter, socket)` at the end of its room's bullets, earlier bullets unchanged, and the counter goes up by one; an unseated socket changes nothing |
| MatchServer.Server.Disconnect | Darkforest/server.js:141-152 | the online count goes down by one; the queue becomes `Without(queue, socket)`; a seated socket's player, and only that player, is marked dead |
| MatchServer.Server.GameOver | Darkforest/server.js:154-159 | the socket's room is removed from the table (so a second `gameOver` changes nothing); a socket never paired changes nothing |
| MatchServer.Server.UpdateRoom | Darkforest/server.js:162-199 | an existing room becomes `TickRoom` of itself, every other room is unchanged, and the invariant holds; a missing room changes nothing |
| MatchServer.Server.TickAll | Darkforest/server.js:201-205 | every room becomes `TickRoom` of itself and the room table keeps its keys |

## Left out

- Express and socket.io setup, CORS, static files, `server.listen` and `console.log`: these are I/O plumbing.
- Every `emit`, `s.join` room subscription and `io.sockets.sockets.get` lookup: broadcasting is network I/O. The `state` snapshot sent at the end of `updateRoom` is the room state itself.
- The 50 ms `setInterval`: timer scheduling. `TickAll` is one run of its body.
- The unused globals `players` and `bullets` (lines 23 and 27): nothing reads them.
- Darkforest/public/Webfire.js and Darkforest/public/bgCanvas.js are not part of this model: they are rendering and input capture.
- Floating-point rounding: positions, speeds and the sub-step division are exact reals. Rounding can change a step count in the source (for example, a hypot of 100.00000000000001 gives 51 sub-steps instead of 50).
- `flashlightArc` is stored as its multiple of pi (0.1), because pi is not a real Dafny can compute with.
- Players, bullets and rooms are values inside the server's maps. The source mutates the same objects in place, but no object is shared between two places, so no aliasing is lost.
- MatchServer.Server.JoinQueue: the spawn coordinates are parameters. Their range `[0, width) x [0, height)` from `Math.random()` is neither assumed nor needed. Spawn points are not clamped in the source either, so the `[radius, bound - radius]` bound holds only after an `input` event.
- MatchServer.Server.Fire: the distance `Math.hypot(dx, dy)` is a parameter that must satisfy `dist >= 0 && dist * dist == dx * dx + dy * dy`. A zero distance yields a resting bullet rather than a NaN one, with the same observable behaviour (see above).
- Physics.OverlapsDependsOnOffset: the circle test carries no contract of its own. Nothing is stated about which offsets overlap, for example that a bullet on a player's centre always does, because the solver cannot relate products of reals with that kind of case split.
- Entities.LaunchTowardsAim: stated for a positive aim distance only. At zero distance the source's velocity is NaN, and `Entities.Launch` states the model's resting bullet.
- Physics.StepCount: the exact ceiling of `hypot(speedX, speedY) / radius`. It is defined only for a positive radius, which every bullet has (`RoomValid`). A radius of zero would make the source loop for ever.
- MatchServer.Server.Disconnect: the socket keeps its `roomOf` entry, as `socket.data` does in the source. A disconnected socket sends no further events, so the entry is never used again.
