/**
 Puts over every interleaving of the sessions' commands. A put is not one step: the
 checks look at the items as they are, and the item changes place later.
 */
module PutRuns {
  import opened Basics
  import opened Walks
  import opened ItemForest

  /** A put that has passed its checks: which item goes into which container. */
  datatype Plan = Plan(item: nat, into: nat)

  /** All items, and what each session is about to put. */
  datatype World = World(items: Forest, pending: map<int, Plan>)

  /** `owned` is the store's answer whether the session still holds the item. */
  datatype Step =
    | Check(self: int, item: nat, into: nat)
    | Transfer(self: int, owned: bool)
    | TakeOut(item: nat, from: nat)

  /** The put command takes items and containers that lie in nothing, and looks at the container's room. */
  ghost predicate Allowed(f: Forest, plan: Plan) {
    && IsForest(f) && MayGraft(f, plan.into, plan.item)
    && f[plan.item].parent == 0 && f[plan.into].parent == 0
    && FitsCapacity(f, plan.into, plan.item)
  }

  /** The store changes the item's place only while it lies in nothing. */
  predicate Writes(w: World, step: Step) {
    && step.Transfer? && step.owned && step.self in w.pending
    && w.pending[step.self].item < |w.items| && w.pending[step.self].into < |w.items|
    && w.items[w.pending[step.self].item].parent == 0
  }

  predicate Takes(f: Forest, x: nat, from: nat) {
    x < |f| && from < |f| && f[x].parent == f[from].id && f[x].parent != 0
  }

  ghost function Next(w: World, step: Step): World {
    match step
    case Check(self, item, into) =>
      if self !in w.pending && Allowed(w.items, Plan(item, into))
      then w.(pending := w.pending[self := Plan(item, into)]) else w
    case Transfer(self, owned) =>
      World(if Writes(w, step) then Put(w.items, w.pending[self].item, w.pending[self].into) else w.items,
            w.pending - {self})
    case TakeOut(item, from) =>
      if Takes(w.items, item, from) then w.(items := w.items[item := w.items[item].(parent := 0)]) else w
  }

  ghost predicate Valid(w: World) {
    && IsForest(w.items)
    && (forall i | 0 <= i < |w.items| :: w.items[i].weight >= 0.0)
    && (forall s | s in w.pending ::
         w.pending[s].item < |w.items| && w.pending[s].into < |w.items| && w.pending[s].item != w.pending[s].into)
  }

  ghost predicate Sound(w: World) {
    Valid(w) && CapacitiesKept(w.items)
  }

  // ---- taking out ----

  lemma {:induction false} NotNegative(f: Forest, x: nat, n: nat)
    requires IsForest(f) && x < |f| && n <= |f| && forall i | 0 <= i < |f| :: f[i].weight >= 0.0
    ensures Contents(f, x, false, n) >= 0.0
    decreases Rank(f, x), n
  {
    hide Rank;
    if n > 0 {
      NotNegative(f, x, n - 1);
      if f[n - 1].parent == f[x].id {
        KidRank(f, x, n - 1);
        NotNegative(f, n - 1, |f|);
      }
    }
  }

  /** Putting the item back would give the forest there was. */
  lemma TakenOut(f: Forest, x: nat, from: nat)
    requires IsForest(f) && Takes(f, x, from)
    ensures var f' := f[x := f[x].(parent := 0)];
      IsForest(f') && MayGraft(f', from, x) && Put(f', x, from) == f
  {
    var f' := f[x := f[x].(parent := 0)];
    var p := LinksOf(f);
    LinksUpdate(f, x, 0);
    CutAcyclic(p, f[x].id);
    LinksUpdate(f', x, f[from].id);
    assert f'[x := f'[x].(parent := f[from].id)] == f;
    GraftExactly(LinksOf(f'), f[x].id, f[from].id);
    assert Climb(LinksOf(f'), f[from].id, 0) == Some(f[from].id);
  }

  /** Taking something out leaves no container fuller, and nothing heavier. */
  lemma TakeOutLightens(f: Forest, x: nat, from: nat)
    requires IsForest(f) && Takes(f, x, from) && forall i | 0 <= i < |f| :: f[i].weight >= 0.0
    ensures var f' := f[x := f[x].(parent := 0)];
      && IsForest(f')
      && forall i | 0 <= i < |f| :: Contents(f', i, false, |f|) <= Contents(f, i, false, |f|)
  {
    hide Contents, Load, Climb, Rank;
    var f' := f[x := f[x].(parent := 0)];
    TakenOut(f, x, from);
    forall i | 0 <= i < |f|
      ensures Contents(f', i, false, |f|) <= Contents(f, i, false, |f|)
    {
      if OnPath(f', from, i) {
        var k: nat :| Climb(LinksOf(f'), f'[from].id, k) == Some(f'[i].id);
        PutWeightOn(f', from, x, i, k, false);
        RawLoad(f', from, k);
        NotNegative(f', x, |f'|);
      } else {
        PutContentsOff(f', from, x, i, |f|, false);
      }
    }
  }

  lemma TakeOutKeeps(f: Forest, x: nat, from: nat)
    requires IsForest(f) && Takes(f, x, from) && forall i | 0 <= i < |f| :: f[i].weight >= 0.0
    requires CapacitiesKept(f)
    ensures var f' := f[x := f[x].(parent := 0)];
      IsForest(f') && CapacitiesKept(f')
  {
    hide Contents;
    TakeOutLightens(f, x, from);
    var f' := f[x := f[x].(parent := 0)];
    forall i | 0 <= i < |f'|
      ensures WithinCapacity(f'[i], Contents(f', i, false, |f'|))
    {
      assert WithinCapacity(f[i], Contents(f, i, false, |f|));
    }
  }

  // ---- when a transfer overfills ----

  /** At the moment of the transfer there is room all the way up, and no circle. */
  ghost predicate Safe(w: World, step: Step)
    requires IsForest(w.items)
  {
    Writes(w, step) ==>
      var plan := w.pending[step.self];
      MayGraft(w.items, plan.into, plan.item) && RoomAllTheWayUp(w.items, plan.into, plan.item)
  }

  /** A step keeps the items a forest and every capacity exactly when it is safe. */
  lemma StepExactly(w: World, step: Step)
    requires Sound(w)
    ensures Sound(Next(w, step)) <==> Safe(w, step)
  {
    hide CapacitiesKept, RoomAllTheWayUp, FitsCapacity;
    match step
    case Check(self, item, into) =>
    case Transfer(self, owned) =>
      if Writes(w, step) {
        TransferExactly(w.items, w.pending[self].item, w.pending[self].into);
      }
    case TakeOut(item, from) =>
      if Takes(w.items, item, from) {
        TakeOutKeeps(w.items, item, from);
      }
  }

  lemma TransferExactly(f: Forest, c: nat, d: nat)
    requires IsForest(f) && CapacitiesKept(f) && c < |f| && d < |f| && c != d && f[c].parent == 0
    ensures IsForest(Put(f, c, d)) && CapacitiesKept(Put(f, c, d))
            <==> MayGraft(f, d, c) && RoomAllTheWayUp(f, d, c)
  {
    hide CapacitiesKept, RoomAllTheWayUp;
    if MayGraft(f, d, c) {
      PutCapacityExactly(f, d, c);
    } else {
      LinksUpdate(f, c, f[d].id);
      GraftExactly(LinksOf(f), f[c].id, f[d].id);
    }
  }

  ghost function Run(w: World, steps: seq<Step>): World
    decreases |steps|
  {
    if steps == [] then w else Run(Next(w, steps[0]), steps[1..])
  }

  ghost predicate AlwaysSound(w: World, steps: seq<Step>)
    decreases |steps|
  {
    Sound(w) && (steps != [] ==> AlwaysSound(Next(w, steps[0]), steps[1..]))
  }

  ghost predicate AlwaysSafe(w: World, steps: seq<Step>)
    decreases |steps|
  {
    steps != [] ==> IsForest(w.items) && Safe(w, steps[0]) && AlwaysSafe(Next(w, steps[0]), steps[1..])
  }

  /** Over every interleaving no container is ever overfull exactly when every transfer was safe where it happened. */
  lemma {:induction false} RunExactly(w: World, steps: seq<Step>)
    requires Sound(w)
    ensures AlwaysSound(w, steps) <==> AlwaysSafe(w, steps)
    decreases |steps|
  {
    hide Sound, Next, Safe, IsForest;
    if steps != [] {
      SoundIsForest(w);
      StepExactly(w, steps[0]);
      if Safe(w, steps[0]) {
        RunExactly(Next(w, steps[0]), steps[1..]);
      } else {
        NotAlways(Next(w, steps[0]), steps[1..]);
      }
    }
  }

  lemma SoundIsForest(w: World)
    requires Sound(w)
    ensures IsForest(w.items)
  {
  }

  lemma NotAlways(w: World, steps: seq<Step>)
    requires !Sound(w)
    ensures !AlwaysSound(w, steps)
  {
  }

  // ---- runs whose puts do not meet ----

  /** Until a session's own transfer nobody else moves its item or container, or puts something into either. */
  ghost predicate Calm(w: World, step: Step) {
    Writes(w, step) ==>
      var plan := w.pending[step.self];
      forall s | s in w.pending && s != step.self ::
        && plan.item != w.pending[s].item && plan.item != w.pending[s].into
        && plan.into != w.pending[s].item && plan.into != w.pending[s].into
  }

  ghost predicate AlwaysCalm(w: World, steps: seq<Step>)
    decreases |steps|
  {
    steps != [] ==> Calm(w, steps[0]) && AlwaysCalm(Next(w, steps[0]), steps[1..])
  }

  /** What was checked still holds. */
  ghost predicate AllAllowed(w: World) {
    forall s | s in w.pending :: Allowed(w.items, w.pending[s])
  }

  lemma TopMayGraft(f: Forest, d: nat, c: nat)
    requires IsForest(f) && d < |f| && c < |f| && d != c && f[d].parent == 0
    ensures MayGraft(f, d, c)
  {
    LinksAt(f, d);
    assert Climb(LinksOf(f), f[d].id, 1).None?;
    forall k: nat | k >= 1
      ensures Climb(LinksOf(f), f[d].id, k) != Some(f[c].id)
    {
      ClimbStays(LinksOf(f), f[d].id, 1, k);
    }
  }

  lemma OnlyItself(f: Forest, d: nat, x: nat)
    requires IsForest(f) && d < |f| && x < |f| && f[d].parent == 0 && x != d
    ensures !OnPath(f, d, x)
  {
    TopMayGraft(f, d, x);
    assert Climb(LinksOf(f), f[d].id, 0) == Some(f[d].id);
  }

  /** A put elsewhere leaves what another session has checked. */
  lemma PutLeavesAllowed(f: Forest, done: Plan, plan: Plan)
    requires Allowed(f, done) && Allowed(f, plan)
    requires done.item != plan.item && done.item != plan.into && done.into != plan.item && done.into != plan.into
    ensures Allowed(Put(f, done.item, done.into), plan)
  {
    hide Contents, OnPath, Above;
    var f' := Put(f, done.item, done.into);
    PutIsForest(f, done.into, done.item);
    TopMayGraft(f', plan.into, plan.item);
    OnlyItself(f, done.into, plan.item);
    OnlyItself(f, done.into, plan.into);
    PutContentsOff(f, done.into, done.item, plan.item, |f|, false);
    PutContentsOff(f, done.into, done.item, plan.into, |f|, false);
  }

  lemma TakeOutLeavesAllowed(f: Forest, x: nat, from: nat, plan: Plan)
    requires Takes(f, x, from) && Allowed(f, plan) && forall i | 0 <= i < |f| :: f[i].weight >= 0.0
    ensures Allowed(f[x := f[x].(parent := 0)], plan)
  {
    hide Contents, Above;
    var f' := f[x := f[x].(parent := 0)];
    TakeOutLightens(f, x, from);
    TopMayGraft(f', plan.into, plan.item);
    assert Contents(f', plan.into, false, |f|) <= Contents(f, plan.into, false, |f|);
    assert Weight(f', plan.item, false) <= Weight(f, plan.item, false);
  }

  lemma CalmStep(w: World, step: Step)
    requires Sound(w) && AllAllowed(w) && Calm(w, step)
    ensures Sound(Next(w, step)) && AllAllowed(Next(w, step))
  {
    hide Allowed, CapacitiesKept, IsForest;
    match step
    case Check(self, item, into) => CheckKeeps(w, step);
    case Transfer(self, owned) =>
      if Writes(w, step) {
        TransferKeeps(w, step);
      }
    case TakeOut(item, from) =>
      if Takes(w.items, item, from) {
        TakeOutKeeps(w.items, item, from);
        forall s | s in w.pending
          ensures Allowed(Next(w, step).items, w.pending[s])
        {
          TakeOutLeavesAllowed(w.items, item, from, w.pending[s]);
        }
      }
  }

  lemma CheckKeeps(w: World, step: Step)
    requires Sound(w) && AllAllowed(w) && step.Check?
    ensures Sound(Next(w, step)) && AllAllowed(Next(w, step))
  {
    hide FitsCapacity, CapacitiesKept, Above;
  }

  lemma TransferKeeps(w: World, step: Step)
    requires Sound(w) && AllAllowed(w) && Calm(w, step) && Writes(w, step)
    ensures Sound(Next(w, step)) && AllAllowed(Next(w, step))
  {
    hide CapacitiesKept, FitsCapacity, MayGraft;
    var done := w.pending[step.self];
    assert Allowed(w.items, done);
    RootPutKeepsCapacities(w.items, done.into, done.item);
    forall s | s in w.pending && s != step.self
      ensures Allowed(Next(w, step).items, w.pending[s])
    {
      PutLeavesAllowed(w.items, done, w.pending[s]);
    }
  }

  /**
   Whatever else is interleaved, in a run where nobody else touches what a session has
   checked before its own transfer, no container is ever overfull.
   */
  lemma {:induction false} CalmRunKeepsCapacities(w: World, steps: seq<Step>)
    requires Sound(w) && AllAllowed(w) && AlwaysCalm(w, steps)
    ensures AlwaysSound(w, steps) && AllAllowed(Run(w, steps))
    decreases |steps|
  {
    hide Sound, Next, AllAllowed, Calm;
    if steps != [] {
      CalmStep(w, steps[0]);
      CalmRunKeepsCapacities(Next(w, steps[0]), steps[1..]);
    }
  }

  // ---- two puts into one chest ----

  /** A chest of capacity 10 and two stones of weight 6. */
  function Chest(): Forest {
    [Item(1, 0, 1.0, true, Some(Stats(10.0, 1.0, 0, 0))), Item(2, 0, 6.0, false, None), Item(3, 0, 6.0, false, None)]
  }

  lemma ChestLinks()
    ensures IsForest(Chest())
  {
    var f := Chest();
    assert f[..2][..1] == f[..1] && f[..1][..0] == [];
    assert LinksOf(f[..1]) == map[1 := 0];
    assert LinksOf(f[..2]) == map[1 := 0, 2 := 0];
    var p := LinksOf(f);
    assert p == map[1 := 0, 2 := 0, 3 := 0];
    forall x
      ensures Ends(p, x)
    {
      assert Climb(p, x, 1).None?;
    }
  }

  lemma {:induction false} HoldsNothing(f: Forest, x: nat, n: nat)
    requires IsForest(f) && x < |f| && n <= |f| && forall i | 0 <= i < |f| :: f[i].parent != f[x].id
    ensures Contents(f, x, false, n) == 0.0
    decreases n
  {
    if n > 0 {
      HoldsNothing(f, x, n - 1);
    }
  }

  /** Two puts that are both checked before either transfer overfill the chest. */
  lemma TwoPutsOverfill(a: int, b: int)
    requires a != b
    ensures var w := World(Chest(), map[]);
      && Sound(w)
      && !Sound(Run(w, [Check(a, 1, 0), Check(b, 2, 0), Transfer(a, true), Transfer(b, true)]))
  {
    hide Contents, Weight, MayGraft, IsForest, LinksOf;
    var f := Chest();
    var w := World(f, map[]);
    ChestRoom();
    var both := World(f, map[a := Plan(1, 0), b := Plan(2, 0)]);
    assert Next(Next(w, Check(a, 1, 0)), Check(b, 2, 0)) == both;
    var one := World(Put(f, 1, 0), map[b := Plan(2, 0)]);
    assert Next(both, Transfer(a, true)) == one;
    ChestFull();
    StepExactly(one, Transfer(b, true));
    FourSteps(w, Check(a, 1, 0), Check(b, 2, 0), Transfer(a, true), Transfer(b, true));
  }

  lemma ChestRoom()
    ensures var f := Chest();
      Sound(World(f, map[])) && Allowed(f, Plan(1, 0)) && Allowed(f, Plan(2, 0))
  {
    var f := Chest();
    ChestLinks();
    HoldsNothing(f, 0, |f|);
    HoldsNothing(f, 1, |f|);
    HoldsNothing(f, 2, |f|);
    TopMayGraft(f, 0, 1);
    TopMayGraft(f, 0, 2);
  }

  lemma ChestFull()
    ensures var one := Put(Chest(), 1, 0);
      && IsForest(one) && CapacitiesKept(one)
      && !(MayGraft(one, 0, 2) && RoomAllTheWayUp(one, 0, 2))
  {
    var f, one := Chest(), Put(Chest(), 1, 0);
    ChestRoom();
    RootPutKeepsCapacities(f, 0, 1);
    assert Climb(LinksOf(f), f[0].id, 0) == Some(f[0].id);
    PutWeightOn(f, 0, 1, 0, 0, false);
    RawLoad(f, 0, 0);
    HoldsNothing(f, 0, |f|);
    HoldsNothing(f, 1, |f|);
    HoldsNothing(one, 2, |one|);
    assert Climb(LinksOf(one), one[0].id, 0) == Some(one[0].id);
    assert OnPath(one, 0, 0);
  }

  lemma FourSteps(w: World, a: Step, b: Step, c: Step, d: Step)
    ensures Run(w, [a, b, c, d]) == Next(Next(Next(Next(w, a), b), c), d)
  {
    hide Next;
    var w1, w2 := Next(w, a), Next(Next(w, a), b);
    RunHead(w, a, [b, c, d]);
    RunHead(w1, b, [c, d]);
    RunHead(w2, c, [d]);
    RunHead(Next(w2, c), d, []);
  }

  lemma RunHead(w: World, step: Step, steps: seq<Step>)
    ensures Run(w, [step] + steps) == Run(Next(w, step), steps)
  {
    assert ([step] + steps)[1..] == steps;
  }

  /** What each step does to the items: a transfer and a taking-out move the one item they name, a check none. */
  lemma StepsDo(w: World, step: Step)
    ensures step.Check? ==> Next(w, step).items == w.items
    ensures Writes(w, step) ==>
      var plan := w.pending[step.self];
      Next(w, step).items == w.items[plan.item := w.items[plan.item].(parent := w.items[plan.into].id)]
    ensures step.Transfer? && !Writes(w, step) ==> Next(w, step).items == w.items
    ensures step.Transfer? ==> Next(w, step).pending == w.pending - {step.self}
    ensures step.TakeOut? && Takes(w.items, step.item, step.from) ==>
      Next(w, step).items == w.items[step.item := w.items[step.item].(parent := 0)]
  {
  }
}
