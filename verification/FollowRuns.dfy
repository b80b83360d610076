/**
 The follow graph over every interleaving of the sessions' commands. A follow is not one
 step: the check reads one link at a time, and the link is set later.
 */
module FollowRuns {
  import opened Walks
  import opened Following
  import opened Basics

  /** A follow under way: the check has walked to cur, or has let the follower pass. */
  datatype Check = Walking(leader: int, cur: int, hops: nat) | Cleared(leader: int)

  /** The links of the connected characters, and what each session is about. */
  datatype World = World(links: Links, pending: map<int, Check>)

  /** `stale` is the link of a character who left while the check stood on them. */
  datatype Step =
    | Connect(id: int)
    | Disconnect(id: int)
    | Unfollow(id: int)
    | Begin(self: int, leader: int)
    | Look(self: int, stale: int)
    | Set(self: int)

  /** The check reads one link; None is a refusal. */
  function LookOnce(p: Links, self: int, c: Check, stale: int): Option<Check>
    requires c.Walking?
  {
    if c.hops >= MAX_FOLLOW_DEPTH then None
    else
      var next := if c.cur in p then p[c.cur] else stale;
      if next == 0 then Some(Cleared(c.leader))
      else if next == self then None
      else if next !in p then Some(Cleared(c.leader))
      else Some(Walking(c.leader, next, c.hops + 1))
  }

  /** The session gets to write the link. */
  predicate Sets(w: World, step: Step) {
    step.Set? && step.self in w.pending && w.pending[step.self].Cleared? && step.self in w.links
  }

  function Next(w: World, step: Step): World {
    match step
    case Connect(id) => if id in w.links || id == 0 then w else w.(links := w.links[id := 0])
    case Disconnect(id) => World(w.links - {id}, w.pending - {id})
    case Unfollow(id) => if id in w.links then w.(links := w.links[id := 0]) else w
    case Begin(self, leader) =>
      if self in w.pending || self !in w.links || leader !in w.links || self == leader then w
      else w.(pending := w.pending[self := Walking(leader, leader, 0)])
    case Look(self, stale) =>
      if self !in w.pending || !w.pending[self].Walking? then w
      else
        var r := LookOnce(w.links, self, w.pending[self], stale);
        w.(pending := if r.Some? then w.pending[self := r.value] else w.pending - {self})
    case Set(self) =>
      if Sets(w, step) then World(w.links[self := w.pending[self].leader], w.pending - {self}) else w
  }

  /** 0 is nobody. */
  ghost predicate Valid(w: World) {
    0 !in w.links && forall s | s in w.pending :: w.pending[s].leader != 0
  }

  lemma NextValid(w: World, step: Step)
    requires Valid(w)
    ensures Valid(Next(w, step))
  {
  }

  // ---- the check alone ----

  /** The verdict of a check that nobody disturbs. */
  function Passes(p: Links, self: int, c: Check): bool
    requires c.Walking?
    decreases MAX_FOLLOW_DEPTH - c.hops
  {
    match LookOnce(p, self, c, 0)
    case None => false
    case Some(next) => next.Cleared? || Passes(p, self, next)
  }

  /** Undisturbed, the single readings give the verdict of the bounded walk. */
  lemma {:induction false} PassesExactly(p: Links, self: int, c: Check)
    requires c.Walking? && c.cur in p && c.hops <= MAX_FOLLOW_DEPTH
    requires Climb(p, c.leader, c.hops) == Some(c.cur)
    requires forall k: nat | 1 <= k <= c.hops :: Climb(p, c.leader, k) != Some(self)
    ensures Passes(p, self, c) <==> !Tangles(p, self, c.leader)
    decreases MAX_FOLLOW_DEPTH - c.hops
  {
    var i, next := c.hops, p[c.cur];
    ClimbAdd(p, c.leader, i, 1);
    if i < MAX_FOLLOW_DEPTH {
      if next == 0 {
        ClimbStays(p, c.leader, i + 1, MAX_FOLLOW_DEPTH);
        EndedWalk(p, c.leader, i + 1);
      } else if next != self {
        if next !in p {
          ClimbAdd(p, c.leader, i + 1, 1);
          EndedWalk(p, c.leader, i + 2);
          if i + 2 <= MAX_FOLLOW_DEPTH {
            ClimbStays(p, c.leader, i + 2, MAX_FOLLOW_DEPTH);
          }
        } else {
          PassesExactly(p, self, Walking(c.leader, next, i + 1));
        }
      }
    }
  }

  // ---- when a write closes a circle ----

  /** Any step but a write of a link keeps the graph acyclic. */
  lemma OtherStepsKeep(w: World, step: Step)
    requires Valid(w) && Acyclic(w.links) && !Sets(w, step)
    ensures Acyclic(Next(w, step).links)
  {
    match step
    case Connect(id) => CutAcyclic(w.links, id);
    case Disconnect(id) => RemoveAcyclic(w.links, id);
    case Unfollow(id) => CutAcyclic(w.links, id);
    case _ =>
  }

  /** The leader's walk, as it is when the link is written, does not come by the follower. */
  ghost predicate Safe(w: World, step: Step) {
    Sets(w, step) ==> !AboveOrSame(w.links, step.self, w.pending[step.self].leader)
  }

  /** A step keeps the graph acyclic exactly when it is safe. */
  lemma StepExactly(w: World, step: Step)
    requires Valid(w) && Acyclic(w.links)
    ensures Acyclic(Next(w, step).links) <==> Safe(w, step)
  {
    if Sets(w, step) {
      GraftExactly(w.links, step.self, w.pending[step.self].leader);
    } else {
      OtherStepsKeep(w, step);
    }
  }

  function Run(w: World, steps: seq<Step>): World
    decreases |steps|
  {
    if steps == [] then w else Run(Next(w, steps[0]), steps[1..])
  }

  ghost predicate AlwaysAcyclic(w: World, steps: seq<Step>)
    decreases |steps|
  {
    Acyclic(w.links) && (steps != [] ==> AlwaysAcyclic(Next(w, steps[0]), steps[1..]))
  }

  ghost predicate AlwaysSafe(w: World, steps: seq<Step>)
    decreases |steps|
  {
    steps != [] ==> Safe(w, steps[0]) && AlwaysSafe(Next(w, steps[0]), steps[1..])
  }

  /** The graph is acyclic throughout a run exactly when every write of a link was safe where it happened. */
  lemma {:induction false} RunExactly(w: World, steps: seq<Step>)
    requires Valid(w) && Acyclic(w.links)
    ensures AlwaysAcyclic(w, steps) <==> AlwaysSafe(w, steps)
    decreases |steps|
  {
    hide Acyclic, Next, Safe;
    if steps != [] {
      NextValid(w, steps[0]);
      StepExactly(w, steps[0]);
      if Safe(w, steps[0]) {
        RunExactly(Next(w, steps[0]), steps[1..]);
      } else {
        NotAlways(Next(w, steps[0]), steps[1..]);
      }
    }
  }

  lemma NotAlways(w: World, steps: seq<Step>)
    requires !Acyclic(w.links)
    ensures !AlwaysAcyclic(w, steps)
  {
  }

  /** Two followers who are both checked before either link is written end up following each other. */
  lemma TwoChecksThenTwoWrites(a: int, b: int)
    requires a != b && a != 0 && b != 0
    ensures var w := World(map[a := 0, b := 0], map[]);
      var steps := [Begin(a, b), Begin(b, a), Look(a, 0), Look(b, 0), Set(a), Set(b)];
      && Valid(w) && Acyclic(w.links)
      && Run(w, steps).links == map[a := b, b := a]
      && !Acyclic(Run(w, steps).links)
  {
    var links := map[a := 0, b := 0];
    forall x
      ensures Ends(links, x)
    {
      assert Climb(links, x, 1).None?;
    }
    var w0 := World(links, map[]);
    var w2 := World(links, map[a := Walking(b, b, 0), b := Walking(a, a, 0)]);
    var w4 := World(links, map[a := Cleared(b), b := Cleared(a)]);
    var w6 := World(map[a := b, b := a], map[]);
    assert Next(Next(w0, Begin(a, b)), Begin(b, a)) == w2;
    assert Next(Next(w2, Look(a, 0)), Look(b, 0)) == w4;
    assert Next(Next(w4, Set(a)), Set(b)) == w6;
    SixSteps(w0, Begin(a, b), Begin(b, a), Look(a, 0), Look(b, 0), Set(a), Set(b));
    assert Hop(w6.links, a) == Some(b) && Hop(w6.links, b) == Some(a);
    assert Climb(w6.links, b, 1) == Some(a);
    assert Climb(w6.links, a, 2) == Some(a);
    Circle(w6.links, a, 2);
  }

  lemma SixSteps(w: World, a: Step, b: Step, c: Step, d: Step, e: Step, f: Step)
    ensures Run(w, [a, b, c, d, e, f]) == Next(Next(Next(Next(Next(Next(w, a), b), c), d), e), f)
  {
    hide Next;
    var w1, w2 := Next(w, a), Next(Next(w, a), b);
    RunHead(w, a, [b, c, d, e, f]);
    RunHead(w1, b, [c, d, e, f]);
    RunHead(w2, c, [d, e, f]);
    RunHead(Next(w2, c), d, [e, f]);
    RunHead(Next(Next(w2, c), d), e, [f]);
    RunHead(Next(Next(Next(w2, c), d), e), f, []);
  }

  lemma RunHead(w: World, step: Step, steps: seq<Step>)
    ensures Run(w, [step] + steps) == Run(Next(w, step), steps)
  {
    assert ([step] + steps)[1..] == steps;
  }

  // ---- runs whose checks are not disturbed ----

  /** Nobody who is on the walk of another session's leader gets a new link while that session is about to follow. */
  ghost predicate Calm(w: World, step: Step) {
    Sets(w, step) ==>
      forall s | s in w.pending && s != step.self :: !AboveOrSame(w.links, step.self, w.pending[s].leader)
  }

  ghost predicate AlwaysCalm(w: World, steps: seq<Step>)
    decreases |steps|
  {
    steps != [] ==> Calm(w, steps[0]) && AlwaysCalm(Next(w, steps[0]), steps[1..])
  }

  /** At most n links lead from x to cur, and s is not on the way. */
  predicate OnTheWay(p: Links, x: int, s: int, cur: int, n: nat)
    decreases n
  {
    x != s && (x == cur || (n > 0 && Hop(p, x).Some? && OnTheWay(p, Hop(p, x).value, s, cur, n - 1)))
  }

  /** Either the leader's walk does not come by s, or the check is on that walk and s was not before it. */
  ghost predicate Tracked(p: Links, s: int, c: Check) {
    !AboveOrSame(p, s, c.leader) || (c.Walking? && exists n: nat :: OnTheWay(p, c.leader, s, c.cur, n))
  }

  ghost predicate AllTracked(w: World) {
    forall s | s in w.pending :: Tracked(w.links, s, w.pending[s])
  }

  /** Every walk of q is the start of the walk p has. */
  ghost predicate Shorter(p: Links, q: Links) {
    forall x {:trigger Hop(q, x)} :: Hop(q, x).None? || Hop(q, x) == Hop(p, x)
  }

  lemma {:induction false} ShorterClimb(p: Links, q: Links, x: int, k: nat)
    requires Shorter(p, q) && Climb(q, x, k).Some?
    ensures Climb(p, x, k) == Climb(q, x, k)
    decreases k
  {
    if k > 0 {
      ShorterClimb(p, q, Hop(q, x).value, k - 1);
    }
  }

  lemma ShorterMisses(p: Links, q: Links, x: int, s: int)
    requires Shorter(p, q) && !AboveOrSame(p, s, x)
    ensures !AboveOrSame(q, s, x)
  {
    if k: nat :| Climb(q, x, k) == Some(s) {
      ShorterClimb(p, q, x, k);
    }
  }

  lemma MissesFrom(p: Links, x: int, s: int)
    requires x != s && (Hop(p, x).Some? ==> !AboveOrSame(p, s, Hop(p, x).value))
    ensures !AboveOrSame(p, s, x)
  {
    forall k: nat
      ensures Climb(p, x, k) != Some(s)
    {
      if k > 0 && Hop(p, x).Some? {
        assert Climb(p, Hop(p, x).value, k - 1) != Some(s);
      }
    }
  }

  /** A cut before cur ends the walk; otherwise cur is still on it. */
  lemma {:induction false} ShorterOnTheWay(p: Links, q: Links, x: int, s: int, cur: int, n: nat)
    requires Shorter(p, q) && OnTheWay(p, x, s, cur, n)
    ensures OnTheWay(q, x, s, cur, n) || !AboveOrSame(q, s, x)
    decreases n
  {
    if x != cur {
      if Hop(q, x).Some? {
        ShorterOnTheWay(p, q, Hop(p, x).value, s, cur, n - 1);
      }
      if !OnTheWay(q, x, s, cur, n) {
        MissesFrom(q, x, s);
      }
    }
  }

  lemma ShorterTracked(p: Links, q: Links, s: int, c: Check)
    requires Shorter(p, q) && Tracked(p, s, c)
    ensures Tracked(q, s, c)
  {
    hide Shorter, AboveOrSame;
    if !AboveOrSame(p, s, c.leader) {
      ShorterMisses(p, q, c.leader, s);
    } else {
      var n: nat :| OnTheWay(p, c.leader, s, c.cur, n);
      ShorterOnTheWay(p, q, c.leader, s, c.cur, n);
    }
  }

  lemma {:induction false} RelinkOnTheWay(p: Links, a: int, b: int, x: int, s: int, cur: int, n: nat)
    requires OnTheWay(p, x, s, cur, n) && !AboveOrSame(p, a, x)
    ensures OnTheWay(p[a := b], x, s, cur, n)
    decreases n
  {
    assert Climb(p, x, 0) == Some(x);
    if x != cur {
      var y := Hop(p, x).value;
      forall k: nat
        ensures Climb(p, y, k) != Some(a)
      {
        assert Climb(p, x, k + 1) == Climb(p, y, k);
      }
      RelinkOnTheWay(p, a, b, y, s, cur, n - 1);
    }
  }

  lemma RelinkMisses(p: Links, a: int, b: int, x: int, s: int)
    requires !AboveOrSame(p, a, x) && !AboveOrSame(p, s, x)
    ensures !AboveOrSame(p[a := b], s, x)
  {
    var q := p[a := b];
    if k: nat :| Climb(q, x, k) == Some(s) {
      RelinkBefore(p, a, b, x, k);
    }
  }

  /** A link written off the leader's walk leaves the check where it is. */
  lemma RelinkTracked(p: Links, a: int, b: int, s: int, c: Check)
    requires Tracked(p, s, c) && !AboveOrSame(p, a, c.leader)
    ensures Tracked(p[a := b], s, c)
  {
    hide AboveOrSame;
    var q := p[a := b];
    if !AboveOrSame(p, s, c.leader) {
      RelinkMisses(p, a, b, c.leader, s);
    } else {
      var n: nat :| OnTheWay(p, c.leader, s, c.cur, n);
      RelinkOnTheWay(p, a, b, c.leader, s, c.cur, n);
      assert OnTheWay(q, c.leader, s, c.cur, n);
    }
  }

  /** One more link of the way: on to next, or the walk misses s. */
  lemma {:induction false} OneLinkOn(p: Links, x: int, s: int, cur: int, n: nat)
    requires OnTheWay(p, x, s, cur, n)
    ensures Hop(p, cur).None? ==> !AboveOrSame(p, s, x)
    ensures Hop(p, cur).Some? && Hop(p, cur).value != s ==> OnTheWay(p, x, s, Hop(p, cur).value, n + 1)
    decreases n
  {
    if x != cur {
      OneLinkOn(p, Hop(p, x).value, s, cur, n - 1);
    }
    if Hop(p, cur).None? {
      MissesFrom(p, x, s);
    }
  }

  lemma LookTracked(p: Links, s: int, c: Check, stale: int)
    requires c.Walking? && Tracked(p, s, c) && LookOnce(p, s, c, stale).Some?
    ensures Tracked(p, s, LookOnce(p, s, c, stale).value)
  {
    hide AboveOrSame;
    var d := LookOnce(p, s, c, stale).value;
    assert d.leader == c.leader;
    if AboveOrSame(p, s, c.leader) {
      var n: nat :| OnTheWay(p, c.leader, s, c.cur, n);
      OneLinkOn(p, c.leader, s, c.cur, n);
      if d.Cleared? {
        var next := p[c.cur];
        OneLinkOn(p, c.leader, s, next, n + 1);
      }
    }
  }

  lemma NextTracked(w: World, step: Step)
    requires Valid(w) && AllTracked(w) && Calm(w, step)
    ensures AllTracked(Next(w, step))
  {
    hide AboveOrSame, Tracked, LookOnce;
    var w' := Next(w, step);
    forall s | s in w'.pending
      ensures Tracked(w'.links, s, w'.pending[s])
    {
      match step {
        case Begin(self, leader) =>
          if s == self && s !in w.pending {
            BeginTracked(w.links, self, leader);
          }
        case Look(self, stale) =>
          if s == self && w.pending[s].Walking? {
            LookTracked(w.links, s, w.pending[s], stale);
          }
        case Set(self) =>
          if Sets(w, step) {
            RelinkTracked(w.links, self, w.pending[self].leader, s, w.pending[s]);
          }
        case _ =>
          ShorterTracked(w.links, w'.links, s, w.pending[s]);
      }
    }
  }

  lemma BeginTracked(p: Links, self: int, leader: int)
    requires self != leader
    ensures Tracked(p, self, Walking(leader, leader, 0))
  {
    assert OnTheWay(p, leader, self, leader, 0);
  }

  /**
   Whatever else is interleaved, in a run where nobody on the way of a check gets a new
   link before that session's own write, every write is safe: the graph stays acyclic
   and nobody ends up following themselves.
   */
  lemma {:induction false} CalmRunStaysAcyclic(w: World, steps: seq<Step>)
    requires Valid(w) && Acyclic(w.links) && AllTracked(w) && AlwaysCalm(w, steps)
    ensures AlwaysAcyclic(w, steps)
    ensures forall x, k: nat | k >= 1 :: Climb(Run(w, steps).links, x, k) != Some(x)
    decreases |steps|
  {
    hide AboveOrSame, Next, Acyclic, Calm, Tracked;
    if steps == [] {
      NoCircle(w.links);
    } else {
      NextValid(w, steps[0]);
      NextTracked(w, steps[0]);
      TrackedSafe(w, steps[0]);
      StepExactly(w, steps[0]);
      CalmRunStaysAcyclic(Next(w, steps[0]), steps[1..]);
    }
  }

  lemma TrackedSafe(w: World, step: Step)
    requires AllTracked(w)
    ensures Safe(w, step)
  {
    if Sets(w, step) {
      assert Tracked(w.links, step.self, w.pending[step.self]);
    }
  }

  lemma NoCircle(p: Links)
    requires Acyclic(p)
    ensures forall x, k: nat | k >= 1 :: Climb(p, x, k) != Some(x)
  {
    forall x, k: nat | k >= 1
      ensures Climb(p, x, k) != Some(x)
    {
      assert Ends(p, x);
      var n: nat :| Climb(p, x, n).None?;
      NoReturn(p, x, k, n);
    }
  }

  /** What the steps that no check guards do to the links: one character's, and nobody else's. */
  lemma StepsDo(w: World, id: int)
    ensures id != 0 && id !in w.links ==> Next(w, Connect(id)).links == w.links[id := 0]
    ensures id in w.links ==> Next(w, Connect(id)).links == w.links
    ensures Next(w, Disconnect(id)).links == w.links - {id} && id !in Next(w, Disconnect(id)).pending
    ensures id in w.links ==> Next(w, Unfollow(id)).links == w.links[id := 0]
    ensures id !in w.links ==> Next(w, Unfollow(id)).links == w.links
  {
  }
}
