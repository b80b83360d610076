/**
 The minimap survey: rooms are placed on a grid breadth first, each one step from
 the room it was entered from. A room keeps the place it got first, and so does a place.
 */
module MapSurvey {
  datatype Coord = Coord(x: int, y: int)

  datatype Room = Room(zone: int, sector: int, noMap: bool)

  datatype Exit = Exit(to: int, dir: string, hidden: bool)

  /** What the two stores answer; reads of the ids in `lostRooms` and `lostLists` fail. */
  datatype World = World(rooms: map<int, Room>, exits: map<int, seq<Exit>>, lostRooms: set<int>, lostLists: set<int>)

  datatype Options = Options(respectNoMap: bool, respectHidden: bool, boundary: int)

  datatype Cell = Cell(room: int, sector: int, hasUp: bool, hasDown: bool, unknown: bool, offZone: bool)

  datatype Edge = Edge(from: Coord, to: Coord)

  datatype Survey = Survey(cells: map<Coord, Cell>, visited: map<int, Coord>, edges: seq<Edge>)

  datatype Job = Job(room: int, coord: Coord, d: nat)

  /** What one survey is asked for. */
  datatype Trip = Trip(world: World, opts: Options, start: int, startRoom: Room, depth: nat)

  datatype Outcome = Done(survey: Survey) | Failed

  const ORIGIN := Coord(0, 0)
  const NO_SECTOR := 0

  datatype Move = Flat(dx: int, dy: int) | Up | Down | Nowhere

  function MoveOf(dir: string): (m: Move)
    ensures m.Flat? ==> -1 <= m.dx <= 1 && -1 <= m.dy <= 1 && !(m.dx == 0 && m.dy == 0)
  {
    if dir == "n" then Flat(0, -1)
    else if dir == "s" then Flat(0, 1)
    else if dir == "e" then Flat(1, 0)
    else if dir == "w" then Flat(-1, 0)
    else if dir == "ne" then Flat(1, -1)
    else if dir == "nw" then Flat(-1, -1)
    else if dir == "se" then Flat(1, 1)
    else if dir == "sw" then Flat(-1, 1)
    else if dir == "u" then Up
    else if dir == "d" then Down
    else Nowhere
  }

  function Outs(t: Trip, room: int): seq<Exit> {
    if room in t.world.exits then t.world.exits[room] else []
  }

  /** Hidden exits are passed over when the options ask for it. */
  predicate Permitted(t: Trip, e: Exit) {
    !(t.opts.respectHidden && e.hidden)
  }

  function Ahead(c: Coord, m: Move): Coord
    requires m.Flat?
  {
    Coord(c.x + m.dx, c.y + m.dy)
  }

  predicate Within(c: Coord, n: nat) {
    0 - n <= c.x <= n && 0 - n <= c.y <= n
  }

  predicate Known(t: Trip, room: int) {
    room == t.start || room in t.world.rooms
  }

  /** How a room is drawn before any vertical exit of it is seen. */
  function Sketch(t: Trip, room: int): Cell
    requires Known(t, room)
  {
    if room == t.start then Cell(room, t.startRoom.sector, false, false, false, false)
    else
      var r := t.world.rooms[room];
      if t.opts.respectNoMap && r.noMap then Cell(room, NO_SECTOR, false, false, true, false)
      else if t.opts.boundary != 0 && r.zone != t.opts.boundary then Cell(room, r.sector, false, false, false, true)
      else Cell(room, r.sector, false, false, false, false)
  }

  predicate Open(c: Cell) {
    !c.unknown && !c.offZone
  }

  // ---- what the survey keeps ----

  /** One place per placed room and one room per place. */
  ghost predicate Inverse(s: Survey) {
    && (forall r | r in s.visited :: s.visited[r] in s.cells && s.cells[s.visited[r]].room == r)
    && (forall c | c in s.cells :: s.cells[c].room in s.visited && s.visited[s.cells[c].room] == c)
  }

  function CellOf(s: Survey, room: int): Cell
    requires room in s.visited && s.visited[room] in s.cells
  {
    s.cells[s.visited[room]]
  }

  ghost predicate IsDrawn(t: Trip, c: Cell) {
    && Known(t, c.room)
    && c.(hasUp := false, hasDown := false) == Sketch(t, c.room)
    && (c.room != t.start ==> c.room !in t.world.lostRooms)
    && (c.hasUp ==> Open(c) && Leads(t, c.room, Up))
    && (c.hasDown ==> Open(c) && Leads(t, c.room, Down))
  }

  ghost predicate Leads(t: Trip, room: int, m: Move) {
    exists e | e in Outs(t, room) :: Permitted(t, e) && MoveOf(e.dir) == m
  }

  ghost predicate Drawn(t: Trip, s: Survey) {
    forall c | c in s.cells :: IsDrawn(t, s.cells[c])
  }

  /** An edge leaves an open cell by a permitted flat exit to the room of its other cell. */
  ghost predicate EdgeOk(t: Trip, s: Survey, e: Edge) {
    && e.from in s.cells && e.to in s.cells && Open(s.cells[e.from])
    && Joined(t, s.cells[e.from].room, s.cells[e.to].room)
  }

  ghost predicate Joined(t: Trip, from: int, to: int) {
    exists e | e in Outs(t, from) :: Permitted(t, e) && MoveOf(e.dir).Flat? && e.to == to
  }

  ghost predicate EdgesOk(t: Trip, s: Survey) {
    forall e | e in s.edges :: EdgeOk(t, s, e)
  }

  /** dist counts the steps a room was placed after. */
  ghost predicate Near(t: Trip, s: Survey, dist: map<int, nat>) {
    && dist.Keys == s.visited.Keys
    && forall r | r in s.visited :: Within(s.visited[r], dist[r]) && dist[r] <= t.depth
  }

  ghost predicate Steps(t: Trip, from: int, at: Coord, to: int, there: Coord) {
    exists e | e in Outs(t, from) ::
      Permitted(t, e) && MoveOf(e.dir).Flat? && e.to == to && there == Ahead(at, MoveOf(e.dir))
  }

  /** r was entered from p: by an exit, one grid step in its direction, one survey step later, with an edge drawn. */
  ghost predicate From(t: Trip, s: Survey, dist: map<int, nat>, p: int, r: int) {
    && p in s.visited && r in s.visited && p in dist && r in dist && s.visited[p] in s.cells
    && dist[r] == dist[p] + 1
    && Open(CellOf(s, p))
    && Edge(s.visited[p], s.visited[r]) in s.edges
    && Steps(t, p, s.visited[p], r, s.visited[r])
  }

  ghost predicate Entered(t: Trip, s: Survey, dist: map<int, nat>) {
    forall r | r in s.visited && r != t.start :: exists p :: From(t, s, dist, p, r)
  }

  ghost predicate Invariant(t: Trip, s: Survey, dist: map<int, nat>) {
    && Inverse(s) && Drawn(t, s) && EdgesOk(t, s) && Near(t, s, dist) && Entered(t, s, dist)
    && t.start in s.visited && s.visited[t.start] == ORIGIN
  }

  /**
   Nothing is left out of the map without a reason: a vertical exit marks its cell, and
   a flat exit of a placed room has its edge, or leads too deep, to a taken place, or nowhere.
   */
  ghost predicate Settled(t: Trip, s: Survey, dist: map<int, nat>, r: int, e: Exit) {
    && r in s.visited && r in dist && s.visited[r] in s.cells
    && (Permitted(t, e) ==>
      match MoveOf(e.dir)
      case Nowhere => true
      case Up => CellOf(s, r).hasUp
      case Down => CellOf(s, r).hasDown
      case Flat(_, _) =>
        || (e.to in s.visited && Edge(s.visited[r], s.visited[e.to]) in s.edges)
        || dist[r] >= t.depth
        || Ahead(s.visited[r], MoveOf(e.dir)) in s.cells
        || e.to !in t.world.rooms)
  }

  ghost predicate SettledAll(t: Trip, s: Survey, dist: map<int, nat>, rooms: set<int>) {
    forall r | r in rooms :: r !in t.world.lostLists && forall e | e in Outs(t, r) :: Settled(t, s, dist, r, e)
  }

  ghost predicate Grown(s: Survey, dist: map<int, nat>, s': Survey, dist': map<int, nat>) {
    && (forall r | r in s.visited :: r in s'.visited && s'.visited[r] == s.visited[r])
    && (forall r | r in dist :: r in dist' && dist'[r] == dist[r])
    && (forall c | c in s.cells :: c in s'.cells && Outgrown(s.cells[c], s'.cells[c]))
    && (forall e | e in s.edges :: e in s'.edges)
  }

  predicate Outgrown(a: Cell, b: Cell) {
    && b.(hasUp := false, hasDown := false) == a.(hasUp := false, hasDown := false)
    && (a.hasUp ==> b.hasUp) && (a.hasDown ==> b.hasDown)
  }

  lemma GrownSelf(s: Survey, dist: map<int, nat>)
    ensures Grown(s, dist, s, dist)
  {
  }

  lemma SettledGrows(t: Trip, s: Survey, dist: map<int, nat>, s': Survey, dist': map<int, nat>, r: int, e: Exit)
    requires Settled(t, s, dist, r, e) && Grown(s, dist, s', dist')
    ensures Settled(t, s', dist', r, e)
  {
    hide MoveOf;
  }

  lemma SettledAllGrows(t: Trip, s: Survey, dist: map<int, nat>, s': Survey, dist': map<int, nat>, rooms: set<int>)
    requires SettledAll(t, s, dist, rooms) && Grown(s, dist, s', dist')
    ensures SettledAll(t, s', dist', rooms)
  {
    hide Settled, Grown;
    forall r, e | r in rooms && e in Outs(t, r)
      ensures Settled(t, s', dist', r, e)
    {
      SettledGrows(t, s, dist, s', dist', r, e);
    }
  }

  // ---- the three changes ----

  /** A room gets its place, entered by an edge. */
  function Placed(t: Trip, s: Survey, from: Coord, room: int, c: Coord): Survey
    requires Known(t, room)
  {
    Survey(s.cells[c := Sketch(t, room)], s.visited[room := c], s.edges + [Edge(from, c)])
  }

  function WithEdge(s: Survey, from: Coord, to: Coord): Survey {
    s.(edges := s.edges + [Edge(from, to)])
  }

  function WithCell(s: Survey, c: Coord, cell: Cell): Survey {
    s.(cells := s.cells[c := cell])
  }

  ghost predicate Fresh(t: Trip, s: Survey, room: int, c: Coord) {
    room !in s.visited && c !in s.cells && room in t.world.rooms && room !in t.world.lostRooms
  }

  lemma PlacedInverse(t: Trip, s: Survey, from: Coord, room: int, c: Coord)
    requires Inverse(s) && Fresh(t, s, room, c)
    ensures Inverse(Placed(t, s, from, room, c))
  {
  }

  lemma PlacedDrawn(t: Trip, s: Survey, from: Coord, room: int, c: Coord)
    requires Drawn(t, s) && Fresh(t, s, room, c) && room != t.start
    ensures Drawn(t, Placed(t, s, from, room, c))
  {
    hide Leads;
  }

  lemma PlacedGrown(t: Trip, s: Survey, dist: map<int, nat>, from: Coord, room: int, c: Coord, d: nat)
    requires Fresh(t, s, room, c) && room !in dist
    ensures Grown(s, dist, Placed(t, s, from, room, c), dist[room := d])
  {
    hide Sketch;
  }

  lemma EdgeGrows(t: Trip, s: Survey, s': Survey, e: Edge)
    requires EdgeOk(t, s, e) && forall c | c in s.cells :: c in s'.cells && Outgrown(s.cells[c], s'.cells[c])
    ensures EdgeOk(t, s', e)
  {
    hide Joined;
  }

  lemma EdgesGrow(t: Trip, s: Survey, s': Survey, e: Edge)
    requires EdgesOk(t, s) && (forall c | c in s.cells :: c in s'.cells && Outgrown(s.cells[c], s'.cells[c]))
    requires s'.edges == s.edges + [e] && EdgeOk(t, s', e)
    ensures EdgesOk(t, s')
  {
    hide EdgeOk, Outgrown;
    forall x | x in s'.edges
      ensures EdgeOk(t, s', x)
    {
      if x in s.edges {
        EdgeGrows(t, s, s', x);
      }
    }
  }

  lemma PlacedEdges(t: Trip, s: Survey, from: Coord, room: int, c: Coord)
    requires EdgesOk(t, s) && Fresh(t, s, room, c)
    requires from in s.cells && Open(s.cells[from]) && Joined(t, s.cells[from].room, room)
    ensures EdgesOk(t, Placed(t, s, from, room, c))
  {
    hide Joined, EdgesOk;
    EdgesGrow(t, s, Placed(t, s, from, room, c), Edge(from, c));
  }

  lemma FromGrows(t: Trip, s: Survey, dist: map<int, nat>, s': Survey, dist': map<int, nat>, p: int, r: int)
    requires From(t, s, dist, p, r) && Grown(s, dist, s', dist')
    ensures From(t, s', dist', p, r)
  {
    hide Steps;
  }

  lemma EnteredGrows(t: Trip, s: Survey, dist: map<int, nat>, s': Survey, dist': map<int, nat>, p: int, room: int)
    requires Entered(t, s, dist) && Grown(s, dist, s', dist')
    requires forall r | r in s'.visited && r !in s.visited :: r == room && From(t, s', dist', p, room)
    ensures Entered(t, s', dist')
  {
    hide From, Grown;
    forall r | r in s'.visited && r != t.start
      ensures exists q :: From(t, s', dist', q, r)
    {
      if r in s.visited {
        var q :| From(t, s, dist, q, r);
        FromGrows(t, s, dist, s', dist', q, r);
      }
    }
  }

  /** The step from job.room by e, as the source takes it: e is one of its exits, flat and permitted. */
  ghost predicate Taken(t: Trip, s: Survey, dist: map<int, nat>, job: Job, e: Exit) {
    && job.room in s.visited && s.visited[job.room] == job.coord && job.coord in s.cells
    && s.cells[job.coord].room == job.room && Open(s.cells[job.coord])
    && job.room in dist && dist[job.room] == job.d && Within(job.coord, job.d)
    && e in Outs(t, job.room) && Permitted(t, e) && MoveOf(e.dir).Flat?
  }

  lemma TakenSteps(t: Trip, s: Survey, dist: map<int, nat>, job: Job, e: Exit)
    requires Taken(t, s, dist, job, e)
    ensures Steps(t, job.room, job.coord, e.to, Ahead(job.coord, MoveOf(e.dir))) && Joined(t, job.room, e.to)
  {
    hide MoveOf;
  }

  lemma PlacedFrom(t: Trip, s: Survey, dist: map<int, nat>, job: Job, e: Exit, c: Coord)
    requires Taken(t, s, dist, job, e) && c == Ahead(job.coord, MoveOf(e.dir)) && Fresh(t, s, e.to, c)
    ensures From(t, Placed(t, s, job.coord, e.to, c), dist[e.to := job.d + 1], job.room, e.to)
  {
    hide MoveOf, Steps, Sketch, Joined;
    TakenSteps(t, s, dist, job, e);
    var s' := Placed(t, s, job.coord, e.to, c);
    assert s'.visited[job.room] == job.coord && CellOf(s', job.room) == s.cells[job.coord];
  }

  lemma PlacedInvariant(t: Trip, s: Survey, dist: map<int, nat>, job: Job, e: Exit, c: Coord)
    requires Invariant(t, s, dist) && Taken(t, s, dist, job, e) && job.d < t.depth
    requires c == Ahead(job.coord, MoveOf(e.dir)) && Fresh(t, s, e.to, c)
    ensures var s' := Placed(t, s, job.coord, e.to, c); var dist' := dist[e.to := job.d + 1];
      Invariant(t, s', dist') && Grown(s, dist, s', dist') && Settled(t, s', dist', job.room, e)
  {
    hide Inverse, Drawn, EdgesOk, Entered, From, Grown, MoveOf, Steps, Joined, Sketch;
    var s', dist' := Placed(t, s, job.coord, e.to, c), dist[e.to := job.d + 1];
    TakenSteps(t, s, dist, job, e);
    PlacedInverse(t, s, job.coord, e.to, c);
    PlacedDrawn(t, s, job.coord, e.to, c);
    PlacedGrown(t, s, dist, job.coord, e.to, c, job.d + 1);
    PlacedEdges(t, s, job.coord, e.to, c);
    PlacedFrom(t, s, dist, job, e, c);
    EnteredGrows(t, s, dist, s', dist', job.room, e.to);
    assert Edge(job.coord, c) in s'.edges;
  }

  lemma WithEdgeInvariant(t: Trip, s: Survey, dist: map<int, nat>, job: Job, e: Exit)
    requires Invariant(t, s, dist) && Taken(t, s, dist, job, e) && e.to in s.visited
    ensures var s' := WithEdge(s, job.coord, s.visited[e.to]);
      Invariant(t, s', dist) && Grown(s, dist, s', dist) && Settled(t, s', dist, job.room, e)
  {
    hide Drawn, EdgesOk, Entered, From, MoveOf, Steps, Joined, IsDrawn;
    var to := s.visited[e.to];
    var s' := WithEdge(s, job.coord, to);
    TakenSteps(t, s, dist, job, e);
    DrawnSame(t, s, s');
    EdgesGrow(t, s, s', Edge(job.coord, to));
    EnteredGrows(t, s, dist, s', dist, job.room, e.to);
    assert Edge(job.coord, to) in s'.edges;
  }

  lemma DrawnSame(t: Trip, s: Survey, s': Survey)
    requires Drawn(t, s) && s'.cells == s.cells
    ensures Drawn(t, s')
  {
  }

  lemma WithCellInvariant(t: Trip, s: Survey, dist: map<int, nat>, c: Coord, cell: Cell)
    requires Invariant(t, s, dist) && c in s.cells && Outgrown(s.cells[c], cell) && IsDrawn(t, cell)
    ensures Invariant(t, WithCell(s, c, cell), dist) && Grown(s, dist, WithCell(s, c, cell), dist)
  {
    hide From, MoveOf, Joined, IsDrawn, Entered, Outgrown;
    var s' := WithCell(s, c, cell);
    forall e | e in s'.edges
      ensures EdgeOk(t, s', e)
    {
      OutgrownSelf(s.cells);
      EdgeGrows(t, s, s', e);
    }
    OutgrownSelf(s.cells);
    OutgrownRoom(s.cells[c], cell);
    EnteredGrows(t, s, dist, s', dist, t.start, t.start);
  }

  lemma OutgrownSelf(cells: map<Coord, Cell>)
    ensures forall c | c in cells :: Outgrown(cells[c], cells[c])
  {
  }

  lemma OutgrownRoom(a: Cell, b: Cell)
    requires Outgrown(a, b)
    ensures a.room == b.room
  {
    assert b.(hasUp := false, hasDown := false).room == b.room;
  }

  // ---- the queue ----

  ghost predicate JobOk(s: Survey, dist: map<int, nat>, j: Job) {
    && j.room in s.visited && s.visited[j.room] == j.coord && j.coord in s.cells
    && s.cells[j.coord].room == j.room && Open(s.cells[j.coord])
    && j.room in dist && dist[j.room] == j.d
  }

  ghost predicate JobsOk(s: Survey, dist: map<int, nat>, queue: seq<Job>) {
    forall j | j in queue :: JobOk(s, dist, j)
  }

  ghost predicate Covered(s: Survey, done: set<int>, queue: seq<Job>) {
    forall c | c in s.cells && Open(s.cells[c]) && s.cells[c].room !in done ::
      exists j | j in queue :: j.room == s.cells[c].room
  }

  lemma JobsGrow(s: Survey, dist: map<int, nat>, s': Survey, dist': map<int, nat>, queue: seq<Job>)
    requires JobsOk(s, dist, queue) && Grown(s, dist, s', dist')
    ensures JobsOk(s', dist', queue)
  {
    hide Grown;
    forall j | j in queue
      ensures JobOk(s', dist', j)
    {
      JobGrows(s, dist, s', dist', j);
    }
  }

  lemma JobGrows(s: Survey, dist: map<int, nat>, s': Survey, dist': map<int, nat>, j: Job)
    requires JobOk(s, dist, j) && Grown(s, dist, s', dist')
    ensures JobOk(s', dist', j)
  {
    OutgrownRoom(s.cells[j.coord], s'.cells[j.coord]);
  }

  lemma CoveredSame(s: Survey, s': Survey, done: set<int>, queue: seq<Job>)
    requires Covered(s, done, queue)
    requires forall c | c in s'.cells :: c in s.cells && Outgrown(s.cells[c], s'.cells[c])
    ensures Covered(s', done, queue)
  {
    forall c | c in s'.cells && Open(s'.cells[c]) && s'.cells[c].room !in done
      ensures exists j | j in queue :: j.room == s'.cells[c].room
    {
      OutgrownRoom(s.cells[c], s'.cells[c]);
    }
  }

  lemma CoveredPlaced(t: Trip, s: Survey, from: Coord, room: int, c: Coord, done: set<int>, queue: seq<Job>, d: nat)
    requires Covered(s, done, queue) && Fresh(t, s, room, c) && room != t.start
    ensures var s' := Placed(t, s, from, room, c);
      Covered(s', done, if Open(s'.cells[c]) then queue + [Job(room, c, d)] else queue)
  {
    hide Fresh, Sketch;
    FreshKnown(t, s, room, c);
    var s' := Placed(t, s, from, room, c);
    var queue' := if Open(s'.cells[c]) then queue + [Job(room, c, d)] else queue;
    forall x | x in s'.cells && Open(s'.cells[x]) && s'.cells[x].room !in done
      ensures exists j | j in queue' :: j.room == s'.cells[x].room
    {
      if x == c {
        assert Job(room, c, d) in queue';
      } else {
        var j :| j in queue && j.room == s.cells[x].room;
        assert j in queue';
      }
    }
  }

  lemma FreshKnown(t: Trip, s: Survey, room: int, c: Coord)
    requires Fresh(t, s, room, c)
    ensures Known(t, room) && Sketch(t, room).room == room
  {
  }

  /** Rooms the store knows that have no place yet: what is left to find. */
  ghost function Unplaced(t: Trip, s: Survey): set<int> {
    t.world.rooms.Keys - s.visited.Keys
  }

  lemma PlacedLeft(t: Trip, s: Survey, from: Coord, room: int, c: Coord)
    requires Fresh(t, s, room, c)
    ensures |Unplaced(t, Placed(t, s, from, room, c))| == |Unplaced(t, s)| - 1
  {
    assert Unplaced(t, Placed(t, s, from, room, c)) == Unplaced(t, s) - {room};
  }

  /** All that holds while the exits of one room are looked at. */
  ghost predicate UnderWay(t: Trip, s: Survey, dist: map<int, nat>, job: Job, done: set<int>, queue: seq<Job>) {
    && Invariant(t, s, dist)
    && JobOk(s, dist, job)
    && JobsOk(s, dist, queue)
    && Covered(s, done + {job.room}, queue)
    && SettledAll(t, s, dist, done)
  }

  lemma JobTaken(t: Trip, s: Survey, dist: map<int, nat>, job: Job, e: Exit)
    requires Invariant(t, s, dist) && JobOk(s, dist, job)
    requires e in Outs(t, job.room) && Permitted(t, e) && MoveOf(e.dir).Flat?
    ensures Taken(t, s, dist, job, e)
  {
    hide MoveOf, Inverse, Drawn, EdgesOk, Entered;
  }

  lemma UnderWayPlaced(t: Trip, s: Survey, dist: map<int, nat>, job: Job, done: set<int>, queue: seq<Job>, e: Exit,
                       c: Coord)
    requires UnderWay(t, s, dist, job, done, queue) && Taken(t, s, dist, job, e) && job.d < t.depth
    requires c == Ahead(job.coord, MoveOf(e.dir)) && Fresh(t, s, e.to, c)
    ensures var s' := Placed(t, s, job.coord, e.to, c); var dist' := dist[e.to := job.d + 1];
      && UnderWay(t, s', dist', job, done, if Open(s'.cells[c]) then queue + [Job(e.to, c, job.d + 1)] else queue)
      && Grown(s, dist, s', dist') && Settled(t, s', dist', job.room, e)
  {
    hide Inverse, Drawn, EdgesOk, Near, Entered, Grown, MoveOf, Covered, SettledAll, JobsOk, Settled, Taken, Sketch;
    var s', dist' := Placed(t, s, job.coord, e.to, c), dist[e.to := job.d + 1];
    PlacedInvariant(t, s, dist, job, e, c);
    JobsGrow(s, dist, s', dist', queue);
    JobGrows(s, dist, s', dist', job);
    CoveredPlaced(t, s, job.coord, e.to, c, done + {job.room}, queue, job.d + 1);
    SettledAllGrows(t, s, dist, s', dist', done);
    if Open(s'.cells[c]) {
      FreshKnown(t, s, e.to, c);
      JobsOneMore(s', dist', queue, Job(e.to, c, job.d + 1));
    }
  }

  lemma JobsOneMore(s: Survey, dist: map<int, nat>, queue: seq<Job>, j: Job)
    requires JobsOk(s, dist, queue) && JobOk(s, dist, j)
    ensures JobsOk(s, dist, queue + [j])
  {
    hide JobOk;
  }

  lemma UnderWayEdge(t: Trip, s: Survey, dist: map<int, nat>, job: Job, done: set<int>, queue: seq<Job>, e: Exit)
    requires UnderWay(t, s, dist, job, done, queue) && Taken(t, s, dist, job, e) && e.to in s.visited
    ensures var s' := WithEdge(s, job.coord, s.visited[e.to]);
      UnderWay(t, s', dist, job, done, queue) && Grown(s, dist, s', dist) && Settled(t, s', dist, job.room, e)
  {
    hide Inverse, Drawn, EdgesOk, Near, Entered, Grown, MoveOf, Covered, SettledAll, JobsOk, Settled, Taken;
    var s' := WithEdge(s, job.coord, s.visited[e.to]);
    WithEdgeInvariant(t, s, dist, job, e);
    JobsGrow(s, dist, s', dist, queue);
    JobGrows(s, dist, s', dist, job);
    OutgrownSelf(s.cells);
    CoveredSame(s, s', done + {job.room}, queue);
    SettledAllGrows(t, s, dist, s', dist, done);
  }

  lemma UnderWayCell(t: Trip, s: Survey, dist: map<int, nat>, job: Job, done: set<int>, queue: seq<Job>, e: Exit,
                     cell: Cell)
    requires UnderWay(t, s, dist, job, done, queue)
    requires e in Outs(t, job.room) && Permitted(t, e)
    requires || (MoveOf(e.dir) == Up && cell == s.cells[job.coord].(hasUp := true))
             || (MoveOf(e.dir) == Down && cell == s.cells[job.coord].(hasDown := true))
    ensures var s' := WithCell(s, job.coord, cell);
      UnderWay(t, s', dist, job, done, queue) && Grown(s, dist, s', dist) && Settled(t, s', dist, job.room, e)
  {
    hide Inverse, EdgesOk, Near, Entered, Grown, MoveOf, Covered, SettledAll, JobsOk;
    var s' := WithCell(s, job.coord, cell);
    assert IsDrawn(t, cell) && Outgrown(s.cells[job.coord], cell) by {
      assert IsDrawn(t, cell) && Outgrown(s.cells[job.coord], cell);
    }
    WithCellInvariant(t, s, dist, job.coord, cell);
    JobsGrow(s, dist, s', dist, queue);
    JobGrows(s, dist, s', dist, job);
    OutgrownSelf(s.cells);
    CoveredSame(s, s', done + {job.room}, queue);
    SettledAllGrows(t, s, dist, s', dist, done);
  }

  datatype Progress = Going(survey: Survey, queue: seq<Job>) | Stopped

  /** The survey has to read the room e leads to, and the store fails to give it. */
  ghost predicate Unread(t: Trip, s: Survey, dist: map<int, nat>, room: int, e: Exit) {
    && room in s.visited && room in dist
    && Permitted(t, e) && MoveOf(e.dir).Flat? && e.to !in s.visited && dist[room] < t.depth
    && Ahead(s.visited[room], MoveOf(e.dir)) !in s.cells
    && e.to in t.world.lostRooms
  }

  /** A survey that cannot go on: the exits of an open placed room, or a room one of them leads to, cannot be read. */
  ghost predicate StuckAt(t: Trip, s: Survey, dist: map<int, nat>, room: int) {
    && room in s.visited && s.visited[room] in s.cells && Open(CellOf(s, room))
    && (room in t.world.lostLists || exists e | e in Outs(t, room) :: Unread(t, s, dist, room, e))
  }

  /** The store fails to give a room's exits, or a room one of them leads to. */
  predicate Unreadable(t: Trip, room: int) {
    room in t.world.lostLists || exists e | e in Outs(t, room) :: e.to in t.world.lostRooms
  }

  lemma StuckIsUnreadable(t: Trip, s: Survey, dist: map<int, nat>, room: int)
    requires StuckAt(t, s, dist, room)
    ensures Unreadable(t, room)
  {
    hide Outs;
  }

  /** Looks at one exit of the room that is being expanded. */
  method FollowExit(t: Trip, s: Survey, job: Job, e: Exit, queue: seq<Job>, ghost dist: map<int, nat>,
                    ghost done: set<int>)
    returns (r: Progress, ghost dist': map<int, nat>)
    requires UnderWay(t, s, dist, job, done, queue) && e in Outs(t, job.room)
    ensures r.Stopped? ==> Unread(t, s, dist, job.room, e)
    ensures r.Going? ==>
      && UnderWay(t, r.survey, dist', job, done, r.queue)
      && Grown(s, dist, r.survey, dist')
      && Settled(t, r.survey, dist', job.room, e)
      && |r.queue| + |Unplaced(t, r.survey)| <= |queue| + |Unplaced(t, s)|
  {
    hide Invariant, Grown, MoveOf, Covered, SettledAll, JobsOk, Taken, Placed, UnderWay;
    dist' := dist;
    JobIsOk(t, s, dist, job, done, queue);
    GrownSelf(s, dist);
    if t.opts.respectHidden && e.hidden {
      return Going(s, queue), dist;
    }
    var m := MoveOf(e.dir);
    if m.Nowhere? {
      return Going(s, queue), dist;
    }
    if !m.Flat? {
      var cell := s.cells[job.coord];
      var marked := if m.Up? then cell.(hasUp := true) else cell.(hasDown := true);
      UnderWayCell(t, s, dist, job, done, queue, e, marked);
      return Going(WithCell(s, job.coord, marked), queue), dist;
    }
    var next := Ahead(job.coord, m);
    JobTaken(t, s, dist, job, e);
    if e.to in s.visited {
      UnderWayEdge(t, s, dist, job, done, queue, e);
      return Going(WithEdge(s, job.coord, s.visited[e.to]), queue), dist;
    }
    if job.d >= t.depth {
      return Going(s, queue), dist;
    }
    if next in s.cells {
      return Going(s, queue), dist;
    }
    if e.to in t.world.lostRooms {
      return Stopped, dist;
    }
    if e.to !in t.world.rooms {
      return Going(s, queue), dist;
    }
    var s' := Placed(t, s, job.coord, e.to, next);
    PlacedCell(t, s, job.coord, e.to, next);
    UnderWayPlaced(t, s, dist, job, done, queue, e, next);
    PlacedLeft(t, s, job.coord, e.to, next);
    dist' := dist[e.to := job.d + 1];
    if s'.cells[next].unknown || s'.cells[next].offZone {
      return Going(s', queue), dist';
    }
    r := Going(s', queue + [Job(e.to, next, job.d + 1)]);
  }

  lemma PlacedCell(t: Trip, s: Survey, from: Coord, room: int, c: Coord)
    requires Known(t, room)
    ensures c in Placed(t, s, from, room, c).cells
  {
  }

  lemma JobIsOk(t: Trip, s: Survey, dist: map<int, nat>, job: Job, done: set<int>, queue: seq<Job>)
    requires UnderWay(t, s, dist, job, done, queue)
    ensures Invariant(t, s, dist) && JobOk(s, dist, job)
  {
  }

  /** A finished survey: its invariant, and every open placed room has been expanded in full. */
  ghost predicate Complete(t: Trip, s: Survey, dist: map<int, nat>) {
    && Invariant(t, s, dist)
    && forall c | c in s.cells && Open(s.cells[c]) ::
        && s.cells[c].room !in t.world.lostLists
        && forall e | e in Outs(t, s.cells[c].room) :: Settled(t, s, dist, s.cells[c].room, e)
  }

  lemma AllExpanded(t: Trip, s: Survey, dist: map<int, nat>, done: set<int>)
    requires Invariant(t, s, dist) && Covered(s, done, []) && SettledAll(t, s, dist, done)
    ensures Complete(t, s, dist)
  {
    hide Invariant, Settled, Outs;
  }

  lemma FirstPlace(t: Trip, c: Coord)
    requires c == ORIGIN
    ensures var s := Survey(map[c := Sketch(t, t.start)], map[t.start := c], []);
      var dist := map[t.start := 0 as nat];
      && Invariant(t, s, dist) && JobsOk(s, dist, [Job(t.start, c, 0)])
      && Covered(s, {}, [Job(t.start, c, 0)])
  {
    var queue := [Job(t.start, c, 0)];
    assert queue[0] in queue;
  }

  lemma TakeJob(t: Trip, s: Survey, dist: map<int, nat>, done: set<int>, queue: seq<Job>)
    requires Invariant(t, s, dist) && JobsOk(s, dist, queue) && Covered(s, done, queue) && SettledAll(t, s, dist, done)
    requires queue != []
    ensures UnderWay(t, s, dist, queue[0], done, queue[1..])
  {
    hide Invariant, JobOk, SettledAll, Open;
    assert queue[0] in queue;
    forall c | c in s.cells && Open(s.cells[c]) && s.cells[c].room !in done + {queue[0].room}
      ensures exists j | j in queue[1..] :: j.room == s.cells[c].room
    {
      var j :| j in queue && j.room == s.cells[c].room;
      assert j in queue[1..];
    }
  }

  lemma RoomDone(t: Trip, s: Survey, dist: map<int, nat>, job: Job, done: set<int>, queue: seq<Job>, outs: seq<Exit>)
    requires UnderWay(t, s, dist, job, done, queue) && outs == Outs(t, job.room) && job.room !in t.world.lostLists
    requires forall k | 0 <= k < |outs| :: Settled(t, s, dist, job.room, outs[k])
    ensures Invariant(t, s, dist) && JobsOk(s, dist, queue) && Covered(s, done + {job.room}, queue)
    ensures SettledAll(t, s, dist, done + {job.room})
  {
    hide Invariant, JobOk, JobsOk, Covered, Settled, Outs;
  }

  /** Looks at all exits of the room that is being expanded. */
  method ExpandRoom(t: Trip, s0: Survey, job: Job, queue0: seq<Job>, ghost dist0: map<int, nat>, ghost done: set<int>)
    returns (r: Progress, ghost at: Survey, ghost dist: map<int, nat>)
    requires UnderWay(t, s0, dist0, job, done, queue0)
    ensures r.Stopped? ==> Invariant(t, at, dist) && StuckAt(t, at, dist, job.room)
    ensures r.Stopped? ==> Unreadable(t, job.room)
    ensures r.Going? ==>
      && Invariant(t, r.survey, dist) && JobsOk(r.survey, dist, r.queue)
      && Covered(r.survey, done + {job.room}, r.queue)
      && SettledAll(t, r.survey, dist, done + {job.room})
      && |r.queue| + |Unplaced(t, r.survey)| <= |queue0| + |Unplaced(t, s0)|
  {
    hide UnderWay, Settled, Outs, Grown, Unplaced, Invariant, JobsOk, Covered, SettledAll, Unread, Open;
    at, dist := s0, dist0;
    JobIsOk(t, s0, dist0, job, done, queue0);
    if job.room in t.world.lostLists {
      return Stopped, s0, dist;
    }
    var outs := Outs(t, job.room);
    var s, queue := s0, queue0;
    var i := 0;
    while i < |outs|
      invariant i <= |outs|
      invariant UnderWay(t, s, dist, job, done, queue)
      invariant forall k | 0 <= k < i :: Settled(t, s, dist, job.room, outs[k])
      invariant |queue| + |Unplaced(t, s)| <= |queue0| + |Unplaced(t, s0)|
    {
      var p, dist' := FollowExit(t, s, job, outs[i], queue, dist, done);
      if p.Stopped? {
        assert outs[i] in outs;
        JobIsOk(t, s, dist, job, done, queue);
        StuckIsUnreadable(t, s, dist, job.room);
        return Stopped, s, dist;
      }
      forall k | 0 <= k < i
        ensures Settled(t, p.survey, dist', job.room, outs[k])
      {
        SettledGrows(t, s, dist, p.survey, dist', job.room, outs[k]);
      }
      s, queue, dist, i := p.survey, p.queue, dist', i + 1;
    }
    RoomDone(t, s, dist, job, done, queue, outs);
    r := Going(s, queue);
  }

  /**
   Places the rooms around `start`. It ends on any world; it fails only at a list or a room
   that it had to read next and could not. In the map it gives, places and rooms match one
   to one, every room stands within `depth` and was entered by an edge from an open room, and
   nothing was left out without a reason.
   */
  method ExploreMap(t: Trip) returns (r: Outcome, ghost at: Survey, ghost dist: map<int, nat>)
    ensures r.Done? ==> Complete(t, r.survey, dist)
    ensures r.Failed? ==> Invariant(t, at, dist) && exists room :: StuckAt(t, at, dist, room)
    ensures r.Done? ==> exists d: map<int, nat> :: Complete(t, r.survey, d)
    ensures r.Failed? ==> exists room :: Unreadable(t, room)
  {
    hide Invariant, JobsOk, Covered, SettledAll, Complete, UnderWay, Unplaced, Outs, StuckAt, Unreadable;
    FirstPlace(t, ORIGIN);
    var s := Survey(map[ORIGIN := Sketch(t, t.start)], map[t.start := ORIGIN], []);
    var queue := [Job(t.start, ORIGIN, 0)];
    at, dist := s, map[t.start := 0];
    ghost var done: set<int> := {};
    NoneSettled(t, s, dist);
    while queue != []
      invariant Invariant(t, s, dist) && JobsOk(s, dist, queue)
      invariant Covered(s, done, queue) && SettledAll(t, s, dist, done)
      decreases |queue| + |Unplaced(t, s)|
    {
      TakeJob(t, s, dist, done, queue);
      var p;
      ghost var dist';
      p, at, dist' := ExpandRoom(t, s, queue[0], queue[1..], dist, done);
      if p.Stopped? {
        return Failed, at, dist';
      }
      done := done + {queue[0].room};
      s, queue, dist := p.survey, p.queue, dist';
    }
    AllExpanded(t, s, dist, done);
    r := Done(s);
  }

  lemma NoneSettled(t: Trip, s: Survey, dist: map<int, nat>)
    ensures SettledAll(t, s, dist, {})
  {
  }

  /** One step of a walk: a permitted flat exit of an open room. */
  ghost predicate Hop(t: Trip, s: Survey, p: int, r: int) {
    && p in s.visited && r in s.visited && s.visited[p] in s.cells
    && Open(CellOf(s, p)) && Joined(t, p, r)
  }

  /** A walk of hops from the start. */
  ghost predicate Route(t: Trip, s: Survey, path: seq<int>) {
    && path != []
    && if |path| == 1 then path[0] == t.start
       else Route(t, s, path[..|path| - 1]) && Hop(t, s, path[|path| - 2], path[|path| - 1])
  }

  lemma FromHops(t: Trip, s: Survey, dist: map<int, nat>, p: int, r: int)
    requires From(t, s, dist, p, r)
    ensures Hop(t, s, p, r) && dist[r] == dist[p] + 1
  {
    hide MoveOf;
  }

  lemma EnteredBy(t: Trip, s: Survey, dist: map<int, nat>, r: int) returns (p: int)
    requires Invariant(t, s, dist) && r in s.visited && r != t.start
    ensures From(t, s, dist, p, r)
  {
    hide From, Inverse, Drawn, EdgesOk, Near;
    p :| From(t, s, dist, p, r);
  }

  /** Every placed room is reached through open rooms in at most `depth` steps. */
  lemma {:induction false} RouteTo(t: Trip, s: Survey, dist: map<int, nat>, r: int) returns (path: seq<int>)
    requires Invariant(t, s, dist) && r in s.visited
    ensures Route(t, s, path) && path[|path| - 1] == r && r in dist && |path| <= dist[r] + 1 <= t.depth + 1
    decreases if r in dist then dist[r] else 0
  {
    hide From, Inverse, Drawn, EdgesOk, Entered, Hop;
    if r == t.start {
      return [r];
    }
    var p := EnteredBy(t, s, dist, r);
    FromHops(t, s, dist, p, r);
    FromPlaced(t, s, dist, p, r);
    var before := RouteTo(t, s, dist, p);
    path := before + [r];
    assert path[..|path| - 1] == before;
  }

  lemma FromPlaced(t: Trip, s: Survey, dist: map<int, nat>, p: int, r: int)
    requires From(t, s, dist, p, r)
    ensures p in s.visited && p in dist
  {
  }

  // ---- directions and cells ----

  /** North is up on the page; the eight words of the compass give the eight neighbours, each once. */
  lemma Compass(c: Coord)
    ensures Ahead(c, MoveOf("n")) == Coord(c.x, c.y - 1) && Ahead(c, MoveOf("s")) == Coord(c.x, c.y + 1)
    ensures Ahead(c, MoveOf("e")) == Coord(c.x + 1, c.y) && Ahead(c, MoveOf("w")) == Coord(c.x - 1, c.y)
    ensures Ahead(c, MoveOf("ne")) == Coord(c.x + 1, c.y - 1) && Ahead(c, MoveOf("sw")) == Coord(c.x - 1, c.y + 1)
    ensures Ahead(c, MoveOf("nw")) == Coord(c.x - 1, c.y - 1) && Ahead(c, MoveOf("se")) == Coord(c.x + 1, c.y + 1)
    ensures MoveOf("n") == Flat(0, -1) && MoveOf("s") == Flat(0, 1)
    ensures MoveOf("e") == Flat(1, 0) && MoveOf("w") == Flat(-1, 0)
    ensures MoveOf("ne") == Flat(1, -1) && MoveOf("sw") == Flat(-1, 1)
    ensures MoveOf("nw") == Flat(-1, -1) && MoveOf("se") == Flat(1, 1)
    ensures MoveOf("u") == Up && MoveOf("d") == Down
    ensures forall dir :: !MoveOf(dir).Nowhere? <==> dir in {"n", "s", "e", "w", "ne", "nw", "se", "sw", "u", "d"}
    ensures forall a, b | MoveOf(a).Flat? && MoveOf(b).Flat? && MoveOf(a) == MoveOf(b) :: a == b
  {
  }

  /** What a cell tells of its room: it is not hidden from the map unless asked for, and whether it is off the zone. */
  lemma SketchTells(t: Trip, room: int)
    requires Known(t, room)
    ensures var c := Sketch(t, room);
      && c.room == room && !c.hasUp && !c.hasDown
      && (room == t.start ==> Open(c) && c.sector == t.startRoom.sector)
      && (room != t.start ==>
            var r := t.world.rooms[room];
            && (c.unknown <==> r.noMap && t.opts.respectNoMap)
            && (c.offZone <==> !c.unknown && t.opts.boundary != 0 && r.zone != t.opts.boundary)
            && c.sector == if c.unknown then 0 else r.sector)
      && (Open(c) <==> !c.unknown && !c.offZone)
  {
  }

  /** No edge shows an exit that is to stay hidden, and none leaves a room that is unknown or off the zone. */
  lemma EdgesShowNothingHidden(t: Trip, s: Survey, dist: map<int, nat>, e: Edge) returns (x: Exit)
    requires Invariant(t, s, dist) && e in s.edges
    ensures e.from in s.cells && e.to in s.cells && s.cells[e.from].room in t.world.exits
    ensures x in t.world.exits[s.cells[e.from].room] && x.to == s.cells[e.to].room
    ensures !(x.hidden && t.opts.respectHidden)
    ensures !s.cells[e.from].unknown && !s.cells[e.from].offZone
  {
    hide Inverse, Drawn, Near, Entered, MoveOf;
    assert EdgeOk(t, s, e);
    x :| x in Outs(t, s.cells[e.from].room) && Permitted(t, x) && MoveOf(x.dir).Flat? && x.to == s.cells[e.to].room;
  }
}
