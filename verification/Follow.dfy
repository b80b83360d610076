/**
 Following: who follows whom among the connected characters, and what one move of
 a leader does to the followers standing with them.

 A move asks exactly the followers, direct and indirect, that `Asked` describes.
 What interleaved follow commands do to the graph is in `FollowRuns`.
 */
module Following {
  import opened Walks
  import opened Basics

  const MAX_FOLLOW_DEPTH: nat := 16

  // ---- the check before following ----

  /**
   The verdict of the bounded walk up the proposed leader's own chain: it meets the
   follower, or has not ended after sixteen hops.
   */
  ghost predicate Tangles(p: Links, self: int, leader: int) {
    || (exists k: nat :: 1 <= k <= 16 && Climb(p, leader, k) == Some(self))
    || (Climb(p, leader, 16).Some? && Climb(p, leader, 16).value in p)
  }

  method IntroducesFollowCycle(p: Links, self: int, leader: int) returns (tangled: bool)
    requires leader in p
    ensures tangled <==> Tangles(p, self, leader)
  {
    var cur := leader;
    for i := 0 to MAX_FOLLOW_DEPTH
      invariant Climb(p, leader, i) == Some(cur) && cur in p
      invariant forall k: nat | 1 <= k <= i :: Climb(p, leader, k) != Some(self)
    {
      ClimbAdd(p, leader, i, 1);
      var nextID := p[cur];
      if nextID == 0 {
        ClimbStays(p, leader, i + 1, MAX_FOLLOW_DEPTH);
        EndedWalk(p, leader, i + 1);
        return false;
      }
      if nextID == self {
        return true;
      }
      if nextID !in p {
        ClimbAdd(p, leader, i + 1, 1);
        EndedWalk(p, leader, i + 2);
        if i + 2 <= MAX_FOLLOW_DEPTH {
          ClimbStays(p, leader, i + 2, MAX_FOLLOW_DEPTH);
        }
        return false;
      }
      cur := nextID;
    }
    return true;
  }

  lemma EndedWalk(p: Links, x: int, n: nat)
    requires Climb(p, x, n).None?
    ensures forall k: nat | n <= k :: Climb(p, x, k).None?
  {
    forall k: nat | n <= k
      ensures Climb(p, x, k).None?
    {
      ClimbStays(p, x, n, k);
    }
  }

  /** A walk that has ended within the bound without meeting the follower never meets it. */
  lemma UntangledNeverMeets(p: Links, self: int, leader: int)
    requires self in p && self != leader && !Tangles(p, self, leader)
    ensures forall k: nat :: Climb(p, leader, k) != Some(self)
  {
    forall k: nat
      ensures Climb(p, leader, k) != Some(self)
    {
      if k > MAX_FOLLOW_DEPTH {
        ClimbAdd(p, leader, MAX_FOLLOW_DEPTH, k - MAX_FOLLOW_DEPTH);
      }
    }
  }

  // ---- one move of a leader ----

  datatype Sector = Air | Underwater | OtherSector

  datatype Speed = Speed(flyFt: int, swimFt: int)

  datatype Exit = Exit(hidden: bool, noPass: bool, locked: bool, closed: bool, toRoom: int)

  datatype Lookup = Found(sector: Sector) | Missing | Failed

  /** The exit in the leader's direction, what is known of the room behind it, and where the leader went. */
  datatype Way = Way(exit: Option<Exit>, dest: Lookup, toRoom: int)

  predicate SectorBlocks(sector: Sector, speed: Speed) {
    match sector
    case Air => speed.flyFt <= 0
    case Underwater => speed.swimFt <= 0
    case OtherSector => false
  }

  predicate MayPass(way: Way, speed: Speed) {
    && way.exit.Some?
    && !way.exit.value.hidden && !way.exit.value.noPass && !way.exit.value.locked && !way.exit.value.closed
    && !way.dest.Failed?
    && (way.dest.Found? ==> !SectorBlocks(way.dest.sector, speed))
    && way.exit.value.toRoom == way.toRoom
  }

  /** The characters that can take the way. */
  function Passing(speeds: map<int, Speed>, way: Way): set<int> {
    set x | x in speeds && MayPass(way, speeds[x])
  }

  /** Who follows whom, and who is where. */
  datatype Scene = Scene(following: Links, rooms: map<int, int>)

  /**
   x is asked to come along at distance k: standing in the room, following someone
   else who came along at distance k - 1, down to the leader.
   */
  predicate Asked(s: Scene, ok: set<int>, from: int, x: int, leader: int, k: nat)
    decreases k
  {
    && k >= 1 && x in s.following && x in s.rooms && s.rooms[x] == from && s.following[x] != x
    && if k == 1 then s.following[x] == leader
       else s.following[x] in ok && Asked(s, ok, from, s.following[x], leader, k - 1)
  }

  ghost predicate AskedWithin(s: Scene, ok: set<int>, from: int, x: int, leader: int, depth: nat) {
    exists k: nat :: k <= depth && Asked(s, ok, from, x, leader, k)
  }

  /** The last one before the leader on the way up from x. */
  ghost predicate AskedThrough(s: Scene, ok: set<int>, from: int, x: int, leader: int, k: nat, top: int) {
    k >= 1 && Asked(s, ok, from, x, leader, k) && Climb(s.following, x, k - 1) == Some(top)
  }

  lemma {:induction false} AskedClimbs(s: Scene, ok: set<int>, from: int, x: int, leader: int, k: nat)
    requires 0 !in ok && leader != 0 && Asked(s, ok, from, x, leader, k)
    ensures Climb(s.following, x, k) == Some(leader)
    ensures Climb(s.following, x, k - 1).Some?
    decreases k
  {
    if k > 1 {
      AskedClimbs(s, ok, from, s.following[x], leader, k - 1);
    }
  }

  /** Being asked at distance k + 1 is being asked, at distance k, by one who came along at distance 1. */
  lemma {:induction false} AskedSplit(s: Scene, ok: set<int>, from: int, x: int, leader: int, k: nat, top: int)
    requires 0 !in ok && leader != 0 && top != 0 && k >= 1
    ensures AskedThrough(s, ok, from, x, leader, k + 1, top)
            <==> Asked(s, ok, from, x, top, k) && top in ok && Asked(s, ok, from, top, leader, 1)
    decreases k
  {
    if k > 1 && x in s.following && s.following[x] in ok {
      AskedSplit(s, ok, from, s.following[x], leader, k - 1, top);
    }
  }

  /** Whoever stands j links above someone asked is asked too, j steps nearer. */
  lemma {:induction false} AskedAbove(s: Scene, ok: set<int>, from: int, x: int, leader: int, k: nat, j: nat)
    requires 0 !in ok && leader != 0 && Asked(s, ok, from, x, leader, k) && j < k
    ensures Climb(s.following, x, j).Some? && Asked(s, ok, from, Climb(s.following, x, j).value, leader, k - j)
    decreases j
  {
    if j > 0 {
      AskedAbove(s, ok, from, s.following[x], leader, k - 1, j - 1);
    }
  }

  /** Even in a circle of followers, nobody comes along through two different direct followers, nor at two distances. */
  lemma OneTop(s: Scene, ok: set<int>, from: int, x: int, leader: int, k: nat, top: int, k': nat, top': int)
    requires 0 !in ok && leader != 0 && (leader in s.rooms ==> s.rooms[leader] != from)
    requires AskedThrough(s, ok, from, x, leader, k, top) && AskedThrough(s, ok, from, x, leader, k', top')
    ensures k == k' && top == top'
  {
    AskedClimbs(s, ok, from, x, leader, k);
    AskedClimbs(s, ok, from, x, leader, k');
    if k < k' {
      AskedAbove(s, ok, from, x, leader, k', k);
    }
    if k' < k {
      AskedAbove(s, ok, from, x, leader, k, k');
    }
  }

  /** Everyone in `asked` has been asked: those who can come are in the new room, the rest stop following. */
  ghost predicate Moved(s: Scene, t: Scene, ok: set<int>, toRoom: int, asked: set<int>) {
    && t.following.Keys == s.following.Keys && t.rooms.Keys == s.rooms.Keys
    && forall x | x in s.rooms && x in s.following ::
         && t.rooms[x] == (if x in asked && x in ok then toRoom else s.rooms[x])
         && t.following[x] == (if x in asked && x !in ok then 0 else s.following[x])
  }

  ghost function AskedAll(s: Scene, ok: set<int>, from: int, leader: int, depth: nat): set<int> {
    set x | x in s.rooms && AskedWithin(s, ok, from, x, leader, depth)
  }

  ghost predicate SceneOk(s: Scene) {
    s.following.Keys == s.rooms.Keys && 0 !in s.following
  }

  ghost predicate NoRepeats(ids: seq<int>) {
    forall i, j | 0 <= i < j < |ids| :: ids[i] != ids[j]
  }

  /** Everybody connected, once each. */
  ghost predicate IsSnapshot(order: seq<int>, connected: set<int>) {
    NoRepeats(order) && forall x :: x in order <==> x in connected
  }

  /** What the log gained: characters taken from the old room to the new one, each once if those are two rooms. */
  ghost predicate MovedSince(s: Scene, t: Scene, from: int, toRoom: int, before: seq<int>, after: seq<int>) {
    && before <= after
    && (from != toRoom ==> NoRepeats(after[|before|..]))
    && forall x | x in after[|before|..] :: x in s.rooms && s.rooms[x] == from && x in t.rooms && t.rooms[x] == toRoom
  }

  /** The connected sessions, in an order nobody chooses. */
  method Snapshot(connected: set<int>) returns (order: seq<int>)
    ensures IsSnapshot(order, connected)
  {
    order := [];
    var rest := connected;
    while rest != {}
      invariant rest <= connected && NoRepeats(order)
      invariant forall x :: x in order <==> x in connected - rest
    {
      SomeoneIn(rest);
      var x :| x in rest;
      assert forall y | y in order :: y != x;
      order, rest := order + [x], rest - {x};
    }
  }

  lemma SomeoneIn(ids: set<int>)
    requires ids != {}
    ensures exists x :: x in ids
  {
    if forall x :: x !in ids {
      assert false;
    }
  }

  class Party {
    var following: Links
    var rooms: map<int, int>
    const speeds: map<int, Speed>
    /** Every successful move of a follower, in order. */
    ghost var moves: seq<int>

    ghost function Now(): Scene
      reads this
    {
      Scene(following, rooms)
    }

    constructor (speeds: map<int, Speed>, following: Links, rooms: map<int, int>)
      ensures this.speeds == speeds && Now() == Scene(following, rooms) && moves == []
    {
      this.speeds, this.following, this.rooms, this.moves := speeds, following, rooms, [];
    }

    /** Follow, stop following, or be refused, with nobody else acting in between. */
    method DoFollow(self: int, leader: int) returns (refused: bool)
      requires self in following && leader in following
      modifies this`following
      ensures following ==
        if self == leader then old(following)[self := 0]
        else if refused then old(following)
        else old(following)[self := leader]
      ensures refused <==> self != leader && Tangles(old(following), self, leader)
    {
      if self == leader {
        following := following[self := 0];
        return false;
      }
      refused := IntroducesFollowCycle(following, self, leader);
      if !refused {
        following := following[self := leader];
      }
    }

    method ClearFollow(self: int)
      requires self in following
      modifies this`following
      ensures following == old(following)[self := 0]
    {
      if following[self] != 0 {
        following := following[self := 0];
      } else {
        assert following == following[self := 0];
      }
    }

    /** One follower tries the way; a refusal ends the following. */
    method FollowAlong(peer: int, way: Way) returns (moved: bool)
      requires peer in following && peer in rooms && peer in speeds
      modifies this`following, this`rooms, this`moves
      ensures moved == (peer in Passing(speeds, way))
      ensures moved ==> Now() == old(Now()).(rooms := old(rooms)[peer := way.toRoom]) && moves == old(moves) + [peer]
      ensures !moved ==> Now() == old(Now()).(following := old(following)[peer := 0]) && moves == old(moves)
    {
      if way.exit.None? || way.exit.value.hidden {
        following := following[peer := 0];
        return false;
      }
      var exit := way.exit.value;
      if exit.noPass || exit.locked || exit.closed {
        following := following[peer := 0];
        return false;
      }
      match way.dest {
        case Found(sector) =>
          if SectorBlocks(sector, speeds[peer]) {
            following := following[peer := 0];
            return false;
          }
        case Missing =>
        case Failed =>
          following := following[peer := 0];
          return false;
      }
      if exit.toRoom != way.toRoom {
        following := following[peer := 0];
        return false;
      }
      rooms := rooms[peer := exit.toRoom];
      moves := moves + [peer];
      return true;
    }

    /**
     The leader has come from `from` to the new room, over whatever follow graph there is,
     circles included. Exactly the followers asked within the remaining depth are asked:
     those who can pass end in the leader's room, each moved once, the others stop
     following, and nobody else is touched.
     */
    method ChainFollowers(way: Way, from: int, leader: int, depth: nat)
      requires SceneOk(Now()) && leader != 0 && (leader in rooms ==> rooms[leader] == way.toRoom)
      requires 0 !in speeds && (forall x | x in rooms :: x in speeds) && depth < MAX_FOLLOW_DEPTH
      modifies this`following, this`rooms, this`moves
      ensures Moved(old(Now()), Now(), Passing(speeds, way), way.toRoom,
                    AskedAll(old(Now()), Passing(speeds, way), from, leader, 16 - depth))
      ensures MovedSince(old(Now()), Now(), from, way.toRoom, old(moves), moves)
      decreases MAX_FOLLOW_DEPTH - depth
    {
      hide AskedBy, AskedAll, Moved, MovedSince, Midway, IsSnapshot, SceneOk, NoRepeats, Passing;
      var order := Snapshot(rooms.Keys);
      ghost var c := Chain(Now(), Passing(speeds, way), from, way.toRoom, leader, MAX_FOLLOW_DEPTH - depth, order);
      StartChain(c, moves, speeds, way);
      var i := 0;
      while i < |order|
        invariant i <= |order|
        invariant Midway(c, Now(), i)
        invariant MovedSince(c.s, Now(), from, way.toRoom, old(moves), moves)
      {
        ghost var t, log := Now(), moves;
        var peer := order[i];
        PeerKnown(c, t, i);
        if peer == leader || following[peer] != leader || rooms[peer] != from {
          SkipPeer(c, t, i);
        } else {
          var moved := FollowAlong(peer, way);
          if !moved {
            RefusePeer(c, t, i, old(moves), moves);
          } else {
            TakePeer(c, t, i, old(moves), log);
            assert forall x | x in rooms.Keys :: x in speeds;
            ghost var t1, log1 := Now(), moves;
            if depth + 1 < MAX_FOLLOW_DEPTH {
              ChainFollowers(way, from, peer, depth + 1);
            } else {
              StayPut(c, t1, peer, moves);
            }
            WholeSubtree(c, t, t1, Now(), i);
            MovesChain(c, t, t1, Now(), i, old(moves), log1, moves);
          }
        }
        i := i + 1;
      }
      EveryoneAsked(c, Now());
    }
  }

  // ---- proof of the chain ----

  /** One level of a chain: the scene it starts from, and the snapshot it goes through. */
  datatype Chain = Chain(s: Scene, ok: set<int>, from: int, toRoom: int, leader: int, depth: nat, order: seq<int>)

  ghost predicate Through(c: Chain, x: int, k: nat, top: int) {
    AskedThrough(c.s, c.ok, c.from, x, c.leader, k, top)
  }

  /** Everyone who is asked through the first n of the snapshot. */
  ghost function AskedBy(c: Chain, n: nat): set<int>
    requires n <= |c.order|
  {
    set x | x in c.s.rooms && exists k: nat, j :: k <= c.depth && 0 <= j < n && Through(c, x, k, c.order[j])
  }

  ghost predicate ChainOk(c: Chain) {
    && SceneOk(c.s) && IsSnapshot(c.order, c.s.rooms.Keys)
    && 0 !in c.ok && c.leader != 0 && c.depth >= 1
    && (c.leader in c.s.rooms ==> c.s.rooms[c.leader] == c.toRoom)
  }

  /** Those asked through the first i of the snapshot have been asked, and nobody else. */
  ghost predicate Midway(c: Chain, t: Scene, i: nat) {
    ChainOk(c) && i <= |c.order| && Moved(c.s, t, c.ok, c.toRoom, AskedBy(c, i))
  }

  /** The next of the snapshot is one to be asked. */
  predicate Ready(c: Chain, t: Scene, i: nat) {
    && i < |c.order| && c.order[i] in t.rooms && c.order[i] in t.following
    && c.order[i] != c.leader && t.following[c.order[i]] == c.leader && t.rooms[c.order[i]] == c.from
  }

  /** Nobody has come into the old room or got a new leader, and who moved is in the new room. */
  ghost predicate Later(c: Chain, t: Scene) {
    && t.following.Keys == c.s.following.Keys && t.rooms.Keys == c.s.rooms.Keys
    && forall x | x in c.s.rooms && x in c.s.following ::
         && (t.rooms[x] == c.from ==> c.s.rooms[x] == c.from)
         && (t.rooms[x] == c.s.rooms[x] || t.rooms[x] == c.toRoom)
         && (t.following[x] == c.s.following[x] || t.following[x] == 0)
  }

  lemma MidwayLater(c: Chain, t: Scene, i: nat)
    requires Midway(c, t, i)
    ensures Later(c, t)
  {
    hide SceneOk, IsSnapshot;
    assert forall x | x in AskedBy(c, i) :: c.s.rooms[x] == c.from;
  }

  lemma StartChain(c: Chain, log: seq<int>, speeds: map<int, Speed>, way: Way)
    requires SceneOk(c.s) && IsSnapshot(c.order, c.s.rooms.Keys) && c.leader != 0 && c.depth >= 1
    requires 0 !in speeds && c.ok == Passing(speeds, way) && (c.leader in c.s.rooms ==> c.s.rooms[c.leader] == c.toRoom)
    ensures Midway(c, c.s, 0) && MovedSince(c.s, c.s, c.from, c.toRoom, log, log)
  {
    hide SceneOk, IsSnapshot;
  }

  lemma PeerKnown(c: Chain, t: Scene, i: nat)
    requires Midway(c, t, i) && i < |c.order|
    ensures c.order[i] in t.rooms && c.order[i] in t.following && c.order[i] != 0
    ensures c.order[i] in c.s.rooms && c.order[i] in c.s.following
  {
    hide AskedBy, NoRepeats;
    var peer := c.order[i];
    assert peer in c.order;
    assert peer in c.s.rooms.Keys;
  }

  /** Who is asked through order[i] is not asked through an earlier one. */
  lemma NotAskedBefore(c: Chain, i: nat, x: int, k: nat)
    requires ChainOk(c) && i < |c.order| && c.from != c.toRoom && Through(c, x, k, c.order[i])
    ensures x !in AskedBy(c, i)
  {
    hide SceneOk;
    if x in AskedBy(c, i) {
      var k': nat, j :| k' <= c.depth && 0 <= j < i && Through(c, x, k', c.order[j]);
      OneTop(c.s, c.ok, c.from, x, c.leader, k, c.order[i], k', c.order[j]);
    }
  }

  /** One more of the snapshot adds exactly those asked through it. */
  lemma AskedByOneMore(c: Chain, i: nat, x: int)
    requires i < |c.order| && x in c.s.rooms
    ensures x in AskedBy(c, i + 1)
            <==> x in AskedBy(c, i) || exists k: nat :: k <= c.depth && Through(c, x, k, c.order[i])
  {
    hide Through;
    if k: nat :| k <= c.depth && Through(c, x, k, c.order[i]) {
      assert x in AskedBy(c, i + 1);
    }
  }

  /** A peer about to be asked is a direct follower in the first scene too. */
  lemma ReadyIsAsked(c: Chain, t: Scene, i: nat)
    requires Midway(c, t, i) && Ready(c, t, i)
    ensures Through(c, c.order[i], 1, c.order[i]) && c.order[i] in AskedBy(c, i + 1)
  {
    hide AskedBy, SceneOk, IsSnapshot;
    var peer := c.order[i];
    PeerKnown(c, t, i);
    MidwayLater(c, t, i);
    assert Climb(c.s.following, peer, 0) == Some(peer);
    assert Through(c, peer, 1, peer);
    AskedByOneMore(c, i, peer);
  }

  lemma DirectlyAsked(c: Chain, x: int, k: nat, top: int)
    requires ChainOk(c) && Through(c, x, k, top) && top != 0
    ensures Asked(c.s, c.ok, c.from, top, c.leader, 1) && Through(c, top, 1, top)
    ensures if k == 1 then x == top else top in c.ok && Asked(c.s, c.ok, c.from, x, top, k - 1)
  {
    hide SceneOk, IsSnapshot;
    AskedAbove(c.s, c.ok, c.from, x, c.leader, k, k - 1);
    if k > 1 {
      AskedSplit(c.s, c.ok, c.from, x, c.leader, k - 1, top);
    }
  }

  lemma OnlyAtOne(c: Chain, x: int, k: nat, top: int)
    requires ChainOk(c) && c.from != c.toRoom && Through(c, x, k, top) && Through(c, top, 1, top)
    ensures x == top ==> k == 1
  {
    hide SceneOk, IsSnapshot;
    if x == top {
      OneTop(c.s, c.ok, c.from, top, c.leader, 1, top, k, top);
    }
  }

  lemma SkipPeer(c: Chain, t: Scene, i: nat)
    requires Midway(c, t, i) && i < |c.order| && !Ready(c, t, i)
    ensures Midway(c, t, i + 1)
  {
    hide AskedBy, SceneOk, IsSnapshot, Through, Ready;
    PeerKnown(c, t, i);
    forall x | x in c.s.rooms
      ensures x in AskedBy(c, i + 1) <==> x in AskedBy(c, i)
    {
      AskedByOneMore(c, i, x);
      if k: nat :| k <= c.depth && Through(c, x, k, c.order[i]) {
        SkippedBefore(c, t, i, x, k);
      }
    }
  }

  /** Who is asked through a skipped peer has been asked. */
  lemma SkippedBefore(c: Chain, t: Scene, i: nat, x: int, k: nat)
    requires Midway(c, t, i) && i < |c.order| && !Ready(c, t, i) && Through(c, x, k, c.order[i])
    ensures x in AskedBy(c, i)
  {
    hide AskedBy, SceneOk, IsSnapshot, Through;
    var peer := c.order[i];
    PeerKnown(c, t, i);
    DirectlyAsked(c, x, k, peer);
    if c.from != c.toRoom {
      NotAskedBefore(c, i, peer, 1);
    }
  }

  lemma RefusePeer(c: Chain, t: Scene, i: nat, before: seq<int>, after: seq<int>)
    requires Midway(c, t, i) && Ready(c, t, i) && c.order[i] !in c.ok
    requires MovedSince(c.s, t, c.from, c.toRoom, before, after)
    ensures var t' := t.(following := t.following[c.order[i] := 0]);
      Midway(c, t', i + 1) && MovedSince(c.s, t', c.from, c.toRoom, before, after)
  {
    hide AskedBy, SceneOk, IsSnapshot, NoRepeats, Through;
    var peer := c.order[i];
    ReadyIsAsked(c, t, i);
    PeerKnown(c, t, i);
    forall x | x in c.s.rooms
      ensures x in AskedBy(c, i + 1) <==> x == peer || x in AskedBy(c, i)
    {
      AskedByOneMore(c, i, x);
      if k: nat :| k <= c.depth && Through(c, x, k, peer) {
        DirectlyAsked(c, x, k, peer);
      }
    }
  }

  /** After the peer itself has moved the scene is again one to chain from. */
  lemma TakePeer(c: Chain, t: Scene, i: nat, before: seq<int>, log: seq<int>)
    requires Midway(c, t, i) && Ready(c, t, i) && MovedSince(c.s, t, c.from, c.toRoom, before, log)
    ensures var t1 := t.(rooms := t.rooms[c.order[i] := c.toRoom]);
      && SceneOk(t1) && t1.rooms.Keys == c.s.rooms.Keys
      && MovedSince(c.s, t1, c.from, c.toRoom, before, log + [c.order[i]])
  {
    hide AskedBy, IsSnapshot;
    var peer := c.order[i];
    MidwayLater(c, t, i);
    PeerKnown(c, t, i);
    var gained := log[|before|..];
    assert (log + [peer])[|before|..] == gained + [peer];
    assert c.from != c.toRoom ==> forall x | x in gained :: x != peer;
  }

  lemma StayPut(c: Chain, t: Scene, leader: int, log: seq<int>)
    ensures Moved(t, t, c.ok, c.toRoom, AskedAll(t, c.ok, c.from, leader, 0))
    ensures MovedSince(t, t, c.from, c.toRoom, log, log)
  {
    assert forall x :: !AskedWithin(t, c.ok, c.from, x, leader, 0);
  }

  ghost predicate Moving(c: Chain, t: Scene, t1: Scene, i: nat) {
    && Midway(c, t, i) && Ready(c, t, i) && c.order[i] in c.ok
    && t1 == t.(rooms := t.rooms[c.order[i] := c.toRoom])
  }

  lemma MovesChain(c: Chain, t: Scene, t1: Scene, u: Scene, i: nat, before: seq<int>, mid: seq<int>, after: seq<int>)
    requires Moving(c, t, t1, i) && Moved(t1, u, c.ok, c.toRoom, AskedAll(t1, c.ok, c.from, c.order[i], c.depth - 1))
    requires MovedSince(c.s, t1, c.from, c.toRoom, before, mid) && MovedSince(t1, u, c.from, c.toRoom, mid, after)
    ensures MovedSince(c.s, u, c.from, c.toRoom, before, after)
  {
    hide AskedAll, Midway;
    MovingLater(c, t, t1, i);
    var first, second := mid[|before|..], after[|mid|..];
    var all := first + second;
    assert after[|before|..] == all;
    forall x | x in all
      ensures x in c.s.rooms && c.s.rooms[x] == c.from && x in u.rooms && u.rooms[x] == c.toRoom
    {
      assert x in first || x in second;
      assert x in t1.rooms.Keys && x in c.s.following.Keys && x in t1.following.Keys;
    }
    if c.from != c.toRoom {
      forall i, j | 0 <= i < j < |all|
        ensures all[i] != all[j]
      {
        if i < |first| <= j {
          assert first[i] in first && second[j - |first|] in second;
        }
      }
    }
  }

  lemma MovingLater(c: Chain, t: Scene, t1: Scene, i: nat)
    requires Moving(c, t, t1, i)
    ensures Later(c, t1) && c.s.following.Keys == c.s.rooms.Keys && c.depth >= 1
  {
    hide AskedBy, IsSnapshot;
    PeerKnown(c, t, i);
    MidwayLater(c, t, i);
  }

  /** Who is asked under the peer was asked under it in the first scene. */
  lemma {:induction false} AskedEarlier(c: Chain, t1: Scene, x: int, leader: int, k: nat)
    requires Later(c, t1) && 0 !in c.ok && leader != 0 && Asked(t1, c.ok, c.from, x, leader, k)
    ensures Asked(c.s, c.ok, c.from, x, leader, k)
    decreases k
  {
    assert x in c.s.rooms.Keys && x in c.s.following.Keys;
    if k > 1 {
      AskedEarlier(c, t1, t1.following[x], leader, k - 1);
    }
  }

  /** Who is asked through the peer, and not before it, is asked under it. */
  lemma {:induction false} AskedUnder(c: Chain, t: Scene, t1: Scene, i: nat, x: int, k: nat)
    requires Moving(c, t, t1, i) && k >= 1 && Through(c, x, k + 1, c.order[i])
    requires c.from != c.toRoom || x in c.ok || x !in AskedBy(c, i)
    ensures Asked(t1, c.ok, c.from, x, c.order[i], k)
    decreases k
  {
    hide AskedBy, SceneOk, IsSnapshot;
    var peer := c.order[i];
    PeerKnown(c, t, i);
    ReadyIsAsked(c, t, i);
    DirectlyAsked(c, x, k + 1, peer);
    if c.from != c.toRoom {
      NotAskedBefore(c, i, x, k + 1);
      OnlyAtOne(c, x, k + 1, peer);
    }
    if k > 1 {
      AskedUnder(c, t, t1, i, c.s.following[x], k - 1);
    }
  }

  /** The peer and everyone asked under it are what the snapshot entry adds. */
  lemma WholeSubtree(c: Chain, t: Scene, t1: Scene, u: Scene, i: nat)
    requires Moving(c, t, t1, i) && Moved(t1, u, c.ok, c.toRoom, AskedAll(t1, c.ok, c.from, c.order[i], c.depth - 1))
    ensures Midway(c, u, i + 1)
  {
    hide AskedBy, AskedAll, SceneOk, IsSnapshot;
    PeerKnown(c, t, i);
    forall x | x in c.s.rooms
      ensures x in AskedBy(c, i + 1)
              <==> x == c.order[i] || x in AskedBy(c, i) || x in AskedAll(t1, c.ok, c.from, c.order[i], c.depth - 1)
    {
      SubtreeMember(c, t, t1, i, x);
    }
  }

  lemma SubtreeMember(c: Chain, t: Scene, t1: Scene, i: nat, x: int)
    requires Moving(c, t, t1, i) && x in c.s.rooms
    ensures x in AskedBy(c, i + 1)
            <==> x == c.order[i] || x in AskedBy(c, i) || x in AskedAll(t1, c.ok, c.from, c.order[i], c.depth - 1)
  {
    hide AskedBy, SceneOk, IsSnapshot, Asked, Through, Midway;
    var peer := c.order[i];
    ReadyIsAsked(c, t, i);
    MovingLater(c, t, t1, i);
    AskedByOneMore(c, i, x);
    if x !in AskedBy(c, i) {
      if k: nat :| k <= c.depth && Through(c, x, k, peer) {
        UnderOrPeer(c, t, t1, i, x, k);
      }
    }
    if x in AskedAll(t1, c.ok, c.from, peer, c.depth - 1) {
      var k: nat :| k <= c.depth - 1 && Asked(t1, c.ok, c.from, x, peer, k);
      ThroughPeer(c, t, t1, i, x, k);
    }
  }

  lemma UnderOrPeer(c: Chain, t: Scene, t1: Scene, i: nat, x: int, k: nat)
    requires Moving(c, t, t1, i) && x !in AskedBy(c, i) && Through(c, x, k, c.order[i])
    ensures x == c.order[i] || (k >= 1 && Asked(t1, c.ok, c.from, x, c.order[i], k - 1))
  {
    hide AskedBy, SceneOk, IsSnapshot;
    if k > 1 {
      AskedUnder(c, t, t1, i, x, k - 1);
    }
  }

  lemma ThroughPeer(c: Chain, t: Scene, t1: Scene, i: nat, x: int, k: nat)
    requires Moving(c, t, t1, i) && Asked(t1, c.ok, c.from, x, c.order[i], k)
    ensures Through(c, x, k + 1, c.order[i])
  {
    hide AskedBy, SceneOk, IsSnapshot;
    var peer := c.order[i];
    PeerKnown(c, t, i);
    ReadyIsAsked(c, t, i);
    MovingLater(c, t, t1, i);
    AskedEarlier(c, t1, x, peer, k);
    AskedSplit(c.s, c.ok, c.from, x, c.leader, k, peer);
  }

  /** The snapshot holds every direct follower, so in the end everyone asked has been. */
  lemma EveryoneAsked(c: Chain, t: Scene)
    requires Midway(c, t, |c.order|)
    ensures Moved(c.s, t, c.ok, c.toRoom, AskedAll(c.s, c.ok, c.from, c.leader, c.depth))
  {
    hide Asked, AskedThrough;
    forall x | x in c.s.rooms
      ensures x in AskedBy(c, |c.order|) <==> x in AskedAll(c.s, c.ok, c.from, c.leader, c.depth)
    {
      if AskedWithin(c.s, c.ok, c.from, x, c.leader, c.depth) {
        var k: nat :| k <= c.depth && Asked(c.s, c.ok, c.from, x, c.leader, k);
        var top := AskedTop(c, x, k);
        assert top in c.order;
        var j :| 0 <= j < |c.order| && c.order[j] == top;
        assert Through(c, x, k, c.order[j]);
      }
      if x in AskedBy(c, |c.order|) {
        var k: nat, j :| k <= c.depth && 0 <= j < |c.order| && Through(c, x, k, c.order[j]);
        ThroughAsked(c, x, k, c.order[j]);
      }
    }
  }

  lemma ThroughAsked(c: Chain, x: int, k: nat, top: int)
    requires Through(c, x, k, top)
    ensures Asked(c.s, c.ok, c.from, x, c.leader, k)
  {
  }

  lemma AskedTop(c: Chain, x: int, k: nat) returns (top: int)
    requires ChainOk(c) && Asked(c.s, c.ok, c.from, x, c.leader, k)
    ensures Through(c, x, k, top) && top in c.s.rooms
  {
    AskedAbove(c.s, c.ok, c.from, x, c.leader, k, k - 1);
    top := Climb(c.s.following, x, k - 1).value;
  }

  /** What stops a follower, one by one, and nothing else does. */
  lemma MayPassExactly(way: Way, speed: Speed)
    ensures !MayPass(way, speed) <==>
      || way.exit.None? || way.exit.value.hidden || way.exit.value.noPass
      || way.exit.value.locked || way.exit.value.closed
      || way.dest == Failed || (way.dest == Found(Air) && speed.flyFt <= 0)
      || (way.dest == Found(Underwater) && speed.swimFt <= 0)
      || way.exit.value.toRoom != way.toRoom
  {
  }
}
