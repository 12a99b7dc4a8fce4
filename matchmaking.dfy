/** The matchmaking queue of Darkforest/server.js as values: the waiting list, one
    `joinQueue` step (lines 42-46) and the filter applied on `disconnect` (line 145). */
module Matchmaking {
  import opened Arena
  import opened Seqs

  /** The outcome of one `joinQueue` event: either everybody keeps waiting, or the two
      oldest waiting ids are taken out to form a room and `rest` keeps waiting. */
  datatype Pairing =
    | Waiting(rest: seq<SocketId>)
    | Paired(first: SocketId, second: SocketId, rest: seq<SocketId>)

  /** `if (!queue.includes(id)) queue.push(id)` */
  function Enqueue(q: seq<SocketId>, sid: SocketId): (r: seq<SocketId>)
    ensures sid in r
    ensures forall x :: x in r <==> x in q || x == sid
    ensures NoDuplicates(q) ==> NoDuplicates(r)
    ensures |r| <= |q| + 1
    ensures |q| <= |r|
    ensures r == q || r == q + [sid]
  {
    if sid in q then q else q + [sid]
  }

  /** The whole `joinQueue` handler on the queue: enqueue, then pair the two oldest
      ids once the queue holds two or more. */
  function Join(q: seq<SocketId>, sid: SocketId): (r: Pairing)
    ensures NoDuplicates(q) ==> NoDuplicates(r.rest)
    ensures NoDuplicates(q) && r.Paired? ==> r.first != r.second && r.first !in r.rest && r.second !in r.rest
    ensures |q| <= 1 ==> |r.rest| <= 1
    ensures r.Paired? <==> |Enqueue(q, sid)| >= 2
    ensures Enqueue(q, sid) == (if r.Paired? then [r.first, r.second] else []) + r.rest
    ensures r.Paired? ==> r.first == q[0]
    ensures sid in r.rest || (r.Paired? && (sid == r.first || sid == r.second))
  {
    var w := Enqueue(q, sid);
    if |w| >= 2 then
      assert w == [w[0], w[1]] + w[2..];
      Paired(w[0], w[1], w[2..])
    else
      Waiting(w)
  }

  /** `queue.filter(id => id !== sid)` */
  function Without(q: seq<SocketId>, sid: SocketId): (r: seq<SocketId>)
    ensures sid !in r
    ensures forall x :: x in r <==> x in q && x != sid
    ensures Subseq(r, q)
    ensures |r| <= |q|
  {
    if q == [] then []
    else if q[0] == sid then Without(q[1..], sid)
    else [q[0]] + Without(q[1..], sid)
  }

  /** Removing an id that is not waiting leaves the queue as it was. */
  lemma {:induction false} WithoutAbsent(q: seq<SocketId>, sid: SocketId)
    requires sid !in q
    ensures Without(q, sid) == q
  {
    if q != [] {
      WithoutAbsent(q[1..], sid);
    }
  }

  /** Removal keeps the queue duplicate-free, so a later `joinQueue` of the same id
      makes it wait (or play) exactly once. */
  lemma RejoinAfterLeave(q: seq<SocketId>, sid: SocketId)
    requires NoDuplicates(q)
    ensures var r := Join(Without(q, sid), sid);
      NoDuplicates((if r.Paired? then [r.first, r.second] else []) + r.rest)
  {
    SubseqNoDuplicates(Without(q, sid), q);
  }

  /** What a sequence of `joinQueue` events produces: the rooms formed, in order of
      creation, and the ids left waiting. */
  datatype Schedule = Schedule(matches: seq<(SocketId, SocketId)>, waiting: seq<SocketId>)

  function JoinAll(q: seq<SocketId>, arrivals: seq<SocketId>): (s: Schedule)
    decreases |arrivals|
  {
    if arrivals == [] then Schedule([], q)
    else
      var step := Join(q, arrivals[0]);
      var later := JoinAll(step.rest, arrivals[1..]);
      if step.Paired? then Schedule([(step.first, step.second)] + later.matches, later.waiting)
      else later
  }

  function Flatten(ms: seq<(SocketId, SocketId)>): (ids: seq<SocketId>)
    ensures |ids| == 2 * |ms|
  {
    if ms == [] then [] else [ms[0].0, ms[0].1] + Flatten(ms[1..])
  }

  lemma {:induction false} NoDuplicatesSuffix<T>(s: seq<T>, k: nat)
    requires NoDuplicates(s) && k <= |s|
    ensures NoDuplicates(s[k..])
  {
    forall i, j | 0 <= i < j < |s[k..]| ensures s[k..][i] != s[k..][j] {
      assert s[k..][i] == s[k + i] && s[k..][j] == s[k + j];
    }
  }

  /** The ids a pairing takes out of the queue, oldest first. */
  function Taken(p: Pairing): (ids: seq<SocketId>)
    ensures |ids| == if p.Paired? then 2 else 0
  {
    if p.Paired? then [p.first, p.second] else []
  }

  lemma NotQueuedYet(q: seq<SocketId>, arrivals: seq<SocketId>)
    requires arrivals != [] && NoDuplicates(q + arrivals)
    ensures arrivals[0] !in q
  {
    var all := q + arrivals;
    forall k | 0 <= k < |q| ensures q[k] != arrivals[0] {
      assert all[k] == q[k] && all[|q|] == arrivals[0];
    }
  }

  /** One arrival: the queue followed by the arrivals splits into what the first
      arrival's pairing takes and what stays queued or is still to come. */
  lemma ArrivalStep(q: seq<SocketId>, arrivals: seq<SocketId>)
    requires arrivals != [] && NoDuplicates(q + arrivals)
    ensures var step := Join(q, arrivals[0]);
      q + arrivals == Taken(step) + (step.rest + arrivals[1..]) &&
      NoDuplicates(step.rest + arrivals[1..])
  {
    var a := arrivals[0];
    var step := Join(q, a);
    NotQueuedYet(q, arrivals);
    assert Taken(step) + step.rest == q + [a] by {
      assert Enqueue(q, a) == q + [a];
    }
    var all := q + arrivals;
    assert all == Taken(step) + (step.rest + arrivals[1..]) by {
      assert arrivals == [a] + arrivals[1..];
      assert all == (q + [a]) + arrivals[1..];
    }
    NoDuplicatesSuffix(all, |Taken(step)|);
    assert all[|Taken(step)|..] == step.rest + arrivals[1..];
  }

  /** The schedule of a run of arrivals is the first arrival's pairing followed by the
      schedule of the rest. */
  lemma ScheduleStep(q: seq<SocketId>, arrivals: seq<SocketId>)
    requires arrivals != []
    ensures var step := Join(q, arrivals[0]);
      var later := JoinAll(step.rest, arrivals[1..]);
      Flatten(JoinAll(q, arrivals).matches) == Taken(step) + Flatten(later.matches) &&
      JoinAll(q, arrivals).waiting == later.waiting
  {
    var step := Join(q, arrivals[0]);
    var later := JoinAll(step.rest, arrivals[1..]);
    assert JoinAll(q, arrivals) == if step.Paired? then Schedule([(step.first, step.second)] + later.matches, later.waiting) else later;
    if step.Paired? {
      FlattenCons((step.first, step.second), later.matches);
    }
  }

  lemma FlattenCons(m: (SocketId, SocketId), ms: seq<(SocketId, SocketId)>)
    ensures Flatten([m] + ms) == [m.0, m.1] + Flatten(ms)
  {
    assert ([m] + ms)[1..] == ms;
  }

  /** Matches are formed strictly in arrival order: read pair by pair, the rooms created
      by a run of distinct arrivals, followed by whoever is still waiting, are exactly
      the ids in the order they queued. */
  lemma {:induction false} ArrivalOrder(q: seq<SocketId>, arrivals: seq<SocketId>)
    requires NoDuplicates(q + arrivals)
    ensures Flatten(JoinAll(q, arrivals).matches) + JoinAll(q, arrivals).waiting == q + arrivals
    decreases |arrivals|
  {
    if arrivals != [] {
      var step := Join(q, arrivals[0]);
      var later := JoinAll(step.rest, arrivals[1..]);
      ArrivalStep(q, arrivals);
      ArrivalOrder(step.rest, arrivals[1..]);
      ScheduleStep(q, arrivals);
      Regroup(Flatten(JoinAll(q, arrivals).matches), JoinAll(q, arrivals).waiting, Taken(step),
              Flatten(later.matches), later.waiting, step.rest + arrivals[1..], q + arrivals);
    }
  }

  lemma Regroup(f: seq<SocketId>, w: seq<SocketId>, t: seq<SocketId>, lf: seq<SocketId>, lw: seq<SocketId>,
                rest: seq<SocketId>, all: seq<SocketId>)
    requires f == t + lf && w == lw && lf + lw == rest && all == t + rest
    ensures f + w == all
  {
  }

  /** Any run of arrivals, repeats and rejoins included: every id that queued or arrived
      is in a room formed during the run or still waiting, and no other id is. */
  lemma {:induction false} ArrivalsAccounted(q: seq<SocketId>, arrivals: seq<SocketId>, x: SocketId)
    ensures x in Flatten(JoinAll(q, arrivals).matches) + JoinAll(q, arrivals).waiting <==> x in q + arrivals
    decreases |arrivals|
  {
    if arrivals != [] {
      var step := Join(q, arrivals[0]);
      var later := JoinAll(step.rest, arrivals[1..]);
      ArrivalsAccounted(step.rest, arrivals[1..], x);
      ScheduleStep(q, arrivals);
      var e := Enqueue(q, arrivals[0]);
      assert Taken(step) + step.rest == e;
      assert x in e <==> x in q || x == arrivals[0];
      assert arrivals == [arrivals[0]] + arrivals[1..];
      RegroupMembers(Flatten(JoinAll(q, arrivals).matches), JoinAll(q, arrivals).waiting, Taken(step),
                     Flatten(later.matches), later.waiting, step.rest, arrivals[1..], e, q, arrivals[0], x);
    }
  }

  lemma RegroupMembers(f: seq<SocketId>, w: seq<SocketId>, t: seq<SocketId>, lf: seq<SocketId>,
                       lw: seq<SocketId>, rest: seq<SocketId>, more: seq<SocketId>, e: seq<SocketId>,
                       q: seq<SocketId>, a: SocketId, x: SocketId)
    requires f == t + lf && w == lw && t + rest == e
    requires x in lf + lw <==> x in rest + more
    requires x in e <==> x in q || x == a
    ensures x in f + w <==> x in q + ([a] + more)
  {
  }
}
