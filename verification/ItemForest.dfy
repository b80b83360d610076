/**
 Items nested in containers. A forest is the flat slice of items the commands
 work on; ids are distinct and each item names its container, 0 for none.
 */
module ItemForest {
  import opened Walks
  import opened Basics

  const DEFAULT_CONTAINER_DEPTH: nat := 3
  const WALK_LIMIT: nat := 12

  datatype Stats = Stats(capacityLbs: real, weightMult: real, depthCap: int, liquidPints: int)

  datatype Item = Item(id: int, parent: int, weight: real, isContainer: bool, stats: Option<Stats>)

  type Forest = seq<Item>

  ghost predicate DistinctIds(f: Forest) {
    && (forall i | 0 <= i < |f| :: f[i].id != 0)
    && (forall i, j | 0 <= i < j < |f| :: f[i].id != f[j].id)
  }

  /** The parent of every known item. */
  function LinksOf(f: Forest): Links {
    if f == [] then map[] else LinksOf(f[..|f| - 1])[f[|f| - 1].id := f[|f| - 1].parent]
  }

  /** No item is, however indirectly, inside itself. */
  ghost predicate IsForest(f: Forest) {
    DistinctIds(f) && Acyclic(LinksOf(f))
  }

  /** At most three containers around any item. */
  ghost predicate Shallow(f: Forest) {
    forall i | 0 <= i < |f| :: Climb(LinksOf(f), f[i].id, DEFAULT_CONTAINER_DEPTH + 1).None?
  }

  /** Re-parenting item c into item d. */
  function Put(f: Forest, c: nat, d: nat): (f': Forest)
    requires c < |f| && d < |f|
    ensures |f'| == |f|
  {
    f[c := f[c].(parent := f[d].id)]
  }

  // ---- links ----

  lemma {:induction false} LinksAt(f: Forest, i: nat)
    requires DistinctIds(f) && i < |f|
    ensures f[i].id in LinksOf(f) && LinksOf(f)[f[i].id] == f[i].parent
  {
    var before := f[..|f| - 1];
    if i < |before| {
      assert before[i] == f[i];
      LinksAt(before, i);
    }
  }

  lemma {:induction false} LinksOnly(f: Forest, x: int)
    requires x in LinksOf(f)
    ensures exists i :: 0 <= i < |f| && f[i].id == x
  {
    var before := f[..|f| - 1];
    if x in LinksOf(before) {
      LinksOnly(before, x);
      var i :| 0 <= i < |before| && before[i].id == x;
      assert f[i].id == x;
    } else {
      assert f[|f| - 1].id == x;
    }
  }

  lemma {:induction false} LinksUpdate(f: Forest, c: nat, parent: int)
    requires DistinctIds(f) && c < |f|
    ensures var f' := f[c := f[c].(parent := parent)];
      DistinctIds(f') && LinksOf(f') == LinksOf(f)[f[c].id := parent]
  {
    var f' := f[c := f[c].(parent := parent)];
    var n := |f| - 1;
    if c == n {
      assert f'[..n] == f[..n];
    } else {
      LinksUpdate(f[..n], c, parent);
      assert f'[..n] == f[..n][c := f[c].(parent := parent)];
      assert f'[n] == f[n] && f[n].id != f[c].id;
    }
  }

  lemma KidHop(f: Forest, x: nat, kid: nat)
    requires DistinctIds(f) && x < |f| && kid < |f| && f[kid].parent == f[x].id
    ensures Hop(LinksOf(f), f[kid].id) == Some(f[x].id)
  {
    LinksAt(f, kid);
  }

  // ---- depth and the measure of recursion over a forest ----

  ghost function LastSome(p: Links, x: int, n: nat): (d: nat)
    requires Climb(p, x, n).None?
    ensures Climb(p, x, d).Some? && Climb(p, x, d + 1).None?
  {
    if Climb(p, x, n - 1).Some? then n - 1 else LastSome(p, x, n - 1)
  }

  /** How many containers are around x. */
  ghost function Depth(p: Links, x: int): (d: nat)
    requires Ends(p, x)
    ensures Climb(p, x, d).Some? && Climb(p, x, d + 1).None?
  {
    var n: nat :| Climb(p, x, n).None?;
    LastSome(p, x, n)
  }

  lemma DepthIs(p: Links, x: int, d: nat)
    requires Ends(p, x) && Climb(p, x, d).Some? && Climb(p, x, d + 1).None?
    ensures Depth(p, x) == d
  {
    var e := Depth(p, x);
    if e < d {
      ClimbStays(p, x, e + 1, d);
    } else if d < e {
      ClimbStays(p, x, d + 1, e);
    }
  }

  /** A number of hops by which every walk from the first n items has ended. */
  ghost function Height(f: Forest, n: nat): (h: nat)
    requires n <= |f| && Acyclic(LinksOf(f))
    ensures forall i | 0 <= i < n :: Climb(LinksOf(f), f[i].id, h).None?
  {
    if n == 0 then 0
    else
      var h := Height(f, n - 1);
      assert Ends(LinksOf(f), f[n - 1].id);
      var e: nat :| Climb(LinksOf(f), f[n - 1].id, e).None?;
      var m := if h < e then e else h;
      assert forall i | 0 <= i < n :: Climb(LinksOf(f), f[i].id, m).None? by {
        forall i | 0 <= i < n
          ensures Climb(LinksOf(f), f[i].id, m).None?
        {
          ClimbStays(LinksOf(f), f[i].id, if i < n - 1 then h else e, m);
        }
      }
      m
  }

  ghost function Rank(f: Forest, x: nat): nat
    requires IsForest(f) && x < |f|
  {
    var p := LinksOf(f);
    assert Ends(p, f[x].id);
    var d, h := Depth(p, f[x].id), Height(f, |f|);
    assert d <= h by {
      if h < d { ClimbStays(p, f[x].id, h, d); }
    }
    h - d
  }

  lemma KidRank(f: Forest, x: nat, kid: nat)
    requires IsForest(f) && x < |f| && kid < |f| && f[kid].parent == f[x].id
    ensures Rank(f, kid) < Rank(f, x)
  {
    var p := LinksOf(f);
    KidHop(f, x, kid);
    assert Ends(p, f[x].id) && Ends(p, f[kid].id);
    var d := Depth(p, f[x].id);
    assert Climb(p, f[kid].id, d + 1) == Climb(p, f[x].id, d);
    assert Climb(p, f[kid].id, d + 2) == Climb(p, f[x].id, d + 1);
    DepthIs(p, f[kid].id, d + 1);
  }

  // ---- weights ----

  /** The factor a container puts on everything inside it, when effective weight is asked for. */
  function Mult(it: Item, effective: bool): real {
    if effective && it.stats.Some? && it.stats.value.weightMult > 0.0 then it.stats.value.weightMult else 1.0
  }

  /** recursiveWeight when effective, rawWeight when not: the item and everything inside it. */
  function Weight(f: Forest, x: nat, effective: bool): real
    requires IsForest(f) && x < |f|
    decreases Rank(f, x), |f| + 1
  {
    f[x].weight + Contents(f, x, effective, |f|)
  }

  /** The weight of those of the first n items that lie directly in x. */
  function Contents(f: Forest, x: nat, effective: bool, n: nat): real
    requires IsForest(f) && x < |f| && n <= |f|
    decreases Rank(f, x), n
  {
    if n == 0 then 0.0
    else
      Contents(f, x, effective, n - 1)
      + if f[n - 1].parent == f[x].id then (KidRank(f, x, n - 1); Mult(f[x], effective) * Weight(f, n - 1, effective))
        else 0.0
  }

  /** What the carrier feels: the top-level items with everything in them. */
  function Carried(f: Forest, effective: bool, n: nat): real
    requires IsForest(f) && n <= |f|
  {
    if n == 0 then 0.0
    else Carried(f, effective, n - 1) + if f[n - 1].parent == 0 then Weight(f, n - 1, effective) else 0.0
  }

  /** The longest chain of items below x. */
  function DepthBelow(f: Forest, x: nat): nat
    requires IsForest(f) && x < |f|
    decreases Rank(f, x), |f| + 1
  {
    DepthBelowOf(f, x, |f|)
  }

  function DepthBelowOf(f: Forest, x: nat, n: nat): nat
    requires IsForest(f) && x < |f| && n <= |f|
    decreases Rank(f, x), n
  {
    if n == 0 then 0
    else
      var best := DepthBelowOf(f, x, n - 1);
      if f[n - 1].parent == f[x].id then
        KidRank(f, x, n - 1);
        var d := 1 + DepthBelow(f, n - 1);
        if d > best then d else best
      else best
  }

  // ---- bounded walks ----

  /** Walks up at most twelve links; exact on any chain shorter than that. */
  method DepthOf(p: Links, x: int) returns (depth: nat)
    ensures depth <= 12 && Climb(p, x, depth).Some?
    ensures depth < 12 ==> Climb(p, x, depth + 1).None?
    ensures Ends(p, x) && Depth(p, x) <= 12 ==> depth == Depth(p, x)
  {
    depth := 0;
    var cur := x;
    for i := 0 to WALK_LIMIT
      invariant depth == i && Climb(p, x, i) == Some(cur)
    {
      ClimbAdd(p, x, i, 1);
      if cur !in p || p[cur] == 0 {
        if Ends(p, x) {
          DepthIs(p, x, i);
        }
        return;
      }
      depth := depth + 1;
      cur := p[cur];
    }
    if Ends(p, x) && Depth(p, x) < WALK_LIMIT {
      ClimbStays(p, x, Depth(p, x) + 1, WALK_LIMIT);
    }
  }

  /** Looks for `ancestor` at most twelve links above `start`. */
  method IsAncestor(p: Links, ancestor: int, start: int) returns (found: bool)
    ensures found <==> exists k: nat :: 1 <= k <= 12 && Climb(p, start, k) == Some(ancestor)
    ensures Climb(p, start, 13).None? ==> (found <==> Above(p, ancestor, start))
  {
    var cur := start;
    for i := 0 to WALK_LIMIT
      invariant Climb(p, start, i) == Some(cur)
      invariant forall k: nat | 1 <= k <= i :: Climb(p, start, k) != Some(ancestor)
    {
      ClimbAdd(p, start, i, 1);
      if cur !in p || p[cur] == 0 {
        forall k: nat | k >= 1
          ensures Climb(p, start, k) != Some(ancestor)
        {
          if k > i { ClimbStays(p, start, i + 1, k); }
        }
        return false;
      }
      if p[cur] == ancestor {
        return true;
      }
      cur := p[cur];
    }
    if Climb(p, start, WALK_LIMIT + 1).None? {
      forall k: nat | k >= 1
        ensures Climb(p, start, k) != Some(ancestor)
      {
        if k > WALK_LIMIT { ClimbStays(p, start, WALK_LIMIT + 1, k); }
      }
    }
    found := false;
  }

  // ---- may child go into container? ----

  datatype Refusal = PutOK | NotAContainer | LiquidContainer | PutSelf | PutCycle | TooDeep | TooHeavy | NoStats

  function DepthCap(stats: Stats): int {
    if 0 < stats.depthCap < DEFAULT_CONTAINER_DEPTH then stats.depthCap else DEFAULT_CONTAINER_DEPTH
  }

  ghost predicate FitsDepth(f: Forest, d: nat, c: nat)
    requires IsForest(f) && d < |f| && c < |f| && f[d].stats.Some?
  {
    assert Ends(LinksOf(f), f[d].id);
    Depth(LinksOf(f), f[d].id) + 1 + DepthBelow(f, c) <= DepthCap(f[d].stats.value)
  }

  /** A capacity of 0 or less means none. */
  predicate WithinCapacity(it: Item, contents: real) {
    it.stats.Some? && it.stats.value.capacityLbs > 0.0 ==> contents <= it.stats.value.capacityLbs
  }

  ghost predicate FitsCapacity(f: Forest, d: nat, c: nat)
    requires IsForest(f) && d < |f| && c < |f|
  {
    WithinCapacity(f[d], Contents(f, d, false, |f|) + Weight(f, c, false))
  }

  /** The gates in numbers: three levels or the container's own cap, and no more weight than its capacity. */
  lemma FitsExactly(f: Forest, d: nat, c: nat)
    requires IsForest(f) && d < |f| && c < |f| && f[d].stats.Some?
    ensures Ends(LinksOf(f), f[d].id)
    ensures FitsDepth(f, d, c) <==>
      var levels := Depth(LinksOf(f), f[d].id) + 1 + DepthBelow(f, c);
      var cap := f[d].stats.value.depthCap;
      levels <= 3 && (cap > 0 ==> levels <= cap)
    ensures FitsCapacity(f, d, c) <==>
      var capacity := f[d].stats.value.capacityLbs;
      capacity <= 0.0 || Contents(f, d, false, |f|) + Weight(f, c, false) <= capacity
  {
    hide Depth, DepthBelow, Contents, Weight, Ends;
    assert Ends(LinksOf(f), f[d].id) by {
      ShortChain(f, d);
    }
  }

  /** A chain that ends within the walk's bound is seen to its end; a longer one is too deep anyway. */
  lemma ShortChain(f: Forest, d: nat)
    requires IsForest(f) && d < |f|
    ensures Ends(LinksOf(f), f[d].id)
    ensures Depth(LinksOf(f), f[d].id) <= WALK_LIMIT ==> Climb(LinksOf(f), f[d].id, WALK_LIMIT + 1).None?
    ensures Depth(LinksOf(f), f[d].id) > WALK_LIMIT ==> Climb(LinksOf(f), f[d].id, WALK_LIMIT + 1).Some?
    ensures Shallow(f) ==> Depth(LinksOf(f), f[d].id) <= DEFAULT_CONTAINER_DEPTH
  {
    var p := LinksOf(f);
    assert Ends(p, f[d].id);
    var exact := Depth(p, f[d].id);
    if exact <= WALK_LIMIT {
      ClimbStays(p, f[d].id, exact + 1, WALK_LIMIT + 1);
    } else if Climb(p, f[d].id, WALK_LIMIT + 1).None? {
      ClimbStays(p, f[d].id, WALK_LIMIT + 1, exact);
    }
    if Shallow(f) && exact > DEFAULT_CONTAINER_DEPTH {
      ClimbStays(p, f[d].id, DEFAULT_CONTAINER_DEPTH + 1, exact);
    }
  }

  /**
   The verdict on putting item c into item d: exactly one reason, the first that
   applies, in terms of the unbounded relations.
   */
  method CanPut(f: Forest, d: nat, c: nat) returns (r: Refusal)
    requires IsForest(f) && d < |f| && c < |f|
    ensures r == NotAContainer <==> !f[d].isContainer
    ensures r == NoStats <==> f[d].isContainer && f[d].stats.None?
    ensures r == LiquidContainer <==> f[d].isContainer && f[d].stats.Some? && f[d].stats.value.liquidPints > 0
    ensures r in {PutSelf, PutCycle, TooDeep, TooHeavy, PutOK}
            <==> f[d].isContainer && f[d].stats.Some? && f[d].stats.value.liquidPints <= 0
    ensures r == PutSelf ==> d == c
    ensures r == PutCycle ==> d != c && Above(LinksOf(f), f[c].id, f[d].id)
    ensures r == TooDeep ==> d != c && !FitsDepth(f, d, c)
    ensures r == TooDeep && Shallow(f) ==> !Above(LinksOf(f), f[c].id, f[d].id)
    ensures r in {TooHeavy, PutOK} ==>
              MayGraft(f, d, c) && FitsDepth(f, d, c) && (r == PutOK <==> FitsCapacity(f, d, c))
  {
    if !f[d].isContainer {
      return NotAContainer;
    }
    if f[d].stats.None? {
      return NoStats;
    }
    var cs := f[d].stats.value;
    if cs.liquidPints > 0 {
      return LiquidContainer;
    }
    if f[d].id == f[c].id {
      return PutSelf;
    }
    var p := LinksOf(f);
    ShortChain(f, d);
    var cycle := IsAncestor(p, f[c].id, f[d].id);
    if cycle {
      return PutCycle;
    }
    var maxDepth := DEFAULT_CONTAINER_DEPTH;
    if cs.depthCap > 0 && cs.depthCap < maxDepth {
      maxDepth := cs.depthCap;
    }
    var depth := DepthOf(p, f[d].id);
    if depth + 1 + DepthBelow(f, c) > maxDepth {
      return TooDeep;
    }
    if cs.capacityLbs > 0.0 {
      if Contents(f, d, false, |f|) + Weight(f, c, false) > cs.capacityLbs {
        return TooHeavy;
      }
    }
    return PutOK;
  }

  // ---- a put keeps the forest shallow ----

  /** The chain from a descendant is no longer than DepthBelow. */
  lemma {:induction false} ChainBelow(f: Forest, x: nat, c: nat, k: nat)
    requires IsForest(f) && x < |f| && c < |f| && Climb(LinksOf(f), f[x].id, k) == Some(f[c].id)
    ensures k <= DepthBelow(f, c)
    decreases k
  {
    if k > 0 {
      var p := LinksOf(f);
      ClimbAdd(p, f[x].id, k - 1, 1);
      var y := Climb(p, f[x].id, k - 1).value;
      assert Hop(p, y) == Some(f[c].id);
      LinksOnly(f, y);
      var i: nat :| i < |f| && f[i].id == y;
      LinksAt(f, i);
      ChainBelow(f, x, i, k - 1);
      DeepestKid(f, c, i, |f|);
    }
  }

  lemma {:induction false} DeepestKid(f: Forest, c: nat, kid: nat, n: nat)
    requires IsForest(f) && c < |f| && kid < n <= |f| && f[kid].parent == f[c].id
    ensures DepthBelowOf(f, c, n) >= 1 + DepthBelow(f, kid)
    decreases n
  {
    if kid < n - 1 {
      DeepestKid(f, c, kid, n - 1);
    }
  }

  /** And some chain is that long: what is refused as too deep would be. */
  lemma {:induction false} DeepestChain(f: Forest, c: nat) returns (x: nat)
    requires IsForest(f) && c < |f|
    ensures x < |f| && Climb(LinksOf(f), f[x].id, DepthBelow(f, c)) == Some(f[c].id)
    decreases Rank(f, c), |f| + 1
  {
    x := DeepestChainOf(f, c, |f|);
  }

  lemma {:induction false} DeepestChainOf(f: Forest, c: nat, n: nat) returns (x: nat)
    requires IsForest(f) && c < |f| && n <= |f|
    ensures x < |f| && Climb(LinksOf(f), f[x].id, DepthBelowOf(f, c, n)) == Some(f[c].id)
    decreases Rank(f, c), n
  {
    if n == 0 {
      return c;
    }
    x := DeepestChainOf(f, c, n - 1);
    if f[n - 1].parent == f[c].id {
      KidRank(f, c, n - 1);
      var deeper := DeepestChain(f, n - 1);
      if 1 + DepthBelow(f, n - 1) > DepthBelowOf(f, c, n - 1) {
        KidHop(f, c, n - 1);
        ClimbAdd(LinksOf(f), f[deeper].id, DepthBelow(f, n - 1), 1);
        x := deeper;
      }
    }
  }

  ghost predicate MayGraft(f: Forest, d: nat, c: nat) {
    d < |f| && c < |f| && d != c && !Above(LinksOf(f), f[c].id, f[d].id)
  }

  lemma NeverMeets(f: Forest, d: nat, c: nat)
    requires DistinctIds(f) && MayGraft(f, d, c)
    ensures forall k: nat :: Climb(LinksOf(f), f[d].id, k) != Some(f[c].id)
  {
  }

  /** Without a cycle a put leaves a forest. */
  lemma PutIsForest(f: Forest, d: nat, c: nat)
    requires IsForest(f) && MayGraft(f, d, c)
    ensures IsForest(Put(f, c, d))
    ensures LinksOf(Put(f, c, d)) == LinksOf(f)[f[c].id := f[d].id]
  {
    LinksUpdate(f, c, f[d].id);
    NeverMeets(f, d, c);
    GraftAcyclic(LinksOf(f), f[c].id, f[d].id);
  }

  /** An allowed put of anything into any container keeps the forest acyclic and shallow. */
  lemma PutKeepsShallow(f: Forest, d: nat, c: nat)
    requires IsForest(f) && Shallow(f) && MayGraft(f, d, c) && f[d].stats.Some? && FitsDepth(f, d, c)
    ensures IsForest(Put(f, c, d)) && Shallow(Put(f, c, d))
  {
    PutIsForest(f, d, c);
    NeverMeets(f, d, c);
    var p, q := LinksOf(f), LinksOf(Put(f, c, d));
    var f' := Put(f, c, d);
    assert Ends(p, f[d].id);
    var depth := Depth(p, f[d].id);
    forall i | 0 <= i < |f'|
      ensures Climb(q, f'[i].id, DEFAULT_CONTAINER_DEPTH + 1).None?
    {
      var x := f[i].id;
      assert f'[i].id == x;
      if AboveOrSame(p, f[c].id, x) {
        var k: nat :| Climb(p, x, k) == Some(f[c].id);
        var first := FirstMeeting(p, x, f[c].id, k);
        ChainBelow(f, i, c, first);
        RelinkThrough(p, f[c].id, f[d].id, x, first, depth + 1);
        ClimbStays(q, x, first + 1 + (depth + 1), DEFAULT_CONTAINER_DEPTH + 1);
      } else {
        RelinkBefore(p, f[c].id, f[d].id, x, DEFAULT_CONTAINER_DEPTH + 1);
      }
    }
  }

  // ---- a put and the weights ----

  /** The product of the factors from container d up to its k-th ancestor. */
  ghost function Load(f: Forest, d: nat, k: nat, effective: bool): real
    requires DistinctIds(f) && d < |f|
  {
    var up := if k == 0 then 1.0 else Load(f, d, k - 1, effective);
    MultAt(f, Climb(LinksOf(f), f[d].id, k), effective) * up
  }

  ghost function MultAt(f: Forest, x: Option<int>, effective: bool): real {
    if x.Some? && exists i :: 0 <= i < |f| && f[i].id == x.value
    then var i :| 0 <= i < |f| && f[i].id == x.value; Mult(f[i], effective)
    else 1.0
  }

  lemma {:induction false} RawLoad(f: Forest, d: nat, k: nat)
    requires DistinctIds(f) && d < |f|
    ensures Load(f, d, k, false) == 1.0
    decreases k
  {
    if k > 0 {
      RawLoad(f, d, k - 1);
    }
  }

  /** x is d or one of the containers around d. */
  ghost predicate OnPath(f: Forest, d: nat, x: nat)
    requires d < |f| && x < |f|
  {
    AboveOrSame(LinksOf(f), f[x].id, f[d].id)
  }

  /** Two items on the path with one parent are the same item. */
  lemma OneWayDown(f: Forest, d: nat, y: int, i: nat, j: nat, ki: nat, kj: nat)
    requires IsForest(f) && d < |f| && i < |f| && j < |f| && ki <= kj
    requires Climb(LinksOf(f), f[d].id, ki) == Some(f[i].id)
    requires Climb(LinksOf(f), f[d].id, kj) == Some(f[j].id)
    requires f[i].parent == y && f[j].parent == y && y != 0
    ensures i == j && ki == kj
  {
    var p := LinksOf(f);
    LinksAt(f, i);
    LinksAt(f, j);
    if ki < kj {
      ClimbAdd(p, f[d].id, ki, kj - ki);
      ClimbAdd(p, f[i].id, kj - ki, 1);
      assert Climb(p, y, kj - ki) == Some(y);
      assert Ends(p, y);
      var n: nat :| Climb(p, y, n).None?;
      NoReturn(p, y, kj - ki, n);
    }
  }

  /** How far above d item x is, when it is on the path. */
  lemma PathStep(f: Forest, d: nat, x: nat, k: nat) returns (kid: nat)
    requires IsForest(f) && d < |f| && x < |f| && k >= 1 && Climb(LinksOf(f), f[d].id, k) == Some(f[x].id)
    ensures kid < |f| && f[kid].parent == f[x].id && Climb(LinksOf(f), f[d].id, k - 1) == Some(f[kid].id)
  {
    var p := LinksOf(f);
    ClimbAdd(p, f[d].id, k - 1, 1);
    var y := Climb(p, f[d].id, k - 1).value;
    LinksOnly(f, y);
    kid :| kid < |f| && f[kid].id == y;
    LinksAt(f, kid);
  }

  lemma PathUp(f: Forest, d: nat, x: nat, kid: nat)
    requires IsForest(f) && d < |f| && x < |f| && kid < |f| && f[kid].parent == f[x].id && OnPath(f, d, kid)
    ensures OnPath(f, d, x)
  {
    var k: nat :| Climb(LinksOf(f), f[d].id, k) == Some(f[kid].id);
    KidHop(f, x, kid);
    ClimbAdd(LinksOf(f), f[d].id, k, 1);
    assert Climb(LinksOf(f), f[d].id, k + 1) == Some(f[x].id);
  }

  /** Off the path, an item holds what it held, and nothing in it is on the path. */
  lemma OffKid(f: Forest, d: nat, c: nat, x: nat, i: nat)
    requires IsForest(f) && MayGraft(f, d, c) && f[c].parent == 0 && x < |f| && i < |f|
    requires IsForest(Put(f, c, d)) && !OnPath(f, d, x)
    ensures Put(f, c, d)[i].parent == f[x].id <==> f[i].parent == f[x].id
    ensures f[i].parent == f[x].id ==> !OnPath(f, d, i) && Rank(Put(f, c, d), i) < Rank(Put(f, c, d), x)
  {
    assert x != d by {
      assert Climb(LinksOf(f), f[d].id, 0) == Some(f[d].id);
    }
    if f[i].parent == f[x].id {
      assert i != c;
      KidRank(Put(f, c, d), x, i);
      if OnPath(f, d, i) {
        PathUp(f, d, x, i);
      }
    }
  }

  /** Off the path nothing changes. */
  lemma {:induction false} PutContentsOff(f: Forest, d: nat, c: nat, x: nat, n: nat, effective: bool)
    requires IsForest(f) && MayGraft(f, d, c) && f[c].parent == 0 && x < |f| && n <= |f|
    requires IsForest(Put(f, c, d)) && !OnPath(f, d, x)
    ensures Contents(Put(f, c, d), x, effective, n) == Contents(f, x, effective, n)
    decreases Rank(Put(f, c, d), x), n
  {
    hide OnPath, Rank, MayGraft, LinksOf;
    if n > 0 {
      PutContentsOff(f, d, c, x, n - 1, effective);
      OffKid(f, d, c, x, n - 1);
      if f[n - 1].parent == f[x].id {
        PutContentsOff(f, d, c, n - 1, |f|, effective);
      }
    }
  }

  /** On the path, k containers above d, the contents grow by the load times the weight put in. */
  lemma {:induction false} PutWeightOn(f: Forest, d: nat, c: nat, x: nat, k: nat, effective: bool)
    requires IsForest(f) && MayGraft(f, d, c) && f[c].parent == 0 && x < |f|
    requires IsForest(Put(f, c, d)) && Climb(LinksOf(f), f[d].id, k) == Some(f[x].id)
    ensures Contents(Put(f, c, d), x, effective, |f|)
         == Contents(f, x, effective, |f|) + Load(f, d, k, effective) * Weight(f, c, effective)
    decreases k
  {
    var via := c;
    assert MultAt(f, Some(f[x].id), effective) == Mult(f[x], effective);
    if k == 0 {
      PutContentsOff(f, d, c, c, |f|, effective);
      assert x == d;
    } else {
      via := PathStep(f, d, x, k);
      PutWeightOn(f, d, c, via, k - 1, effective);
      assert via != c by { NeverMeets(f, d, c); }
    }
    PutContentsOn(f, d, c, x, k, via, |f|, effective);
  }

  /** Only the child `via`, through which c went in, weighs more than before. */
  lemma {:induction false} PutContentsOn(f: Forest, d: nat, c: nat, x: nat, k: nat, via: nat, n: nat, effective: bool)
    requires IsForest(f) && MayGraft(f, d, c) && f[c].parent == 0 && x < |f| && via < |f| && n <= |f|
    requires IsForest(Put(f, c, d)) && Climb(LinksOf(f), f[d].id, k) == Some(f[x].id)
    requires if k == 0 then via == c && Weight(Put(f, c, d), c, effective) == Weight(f, c, effective)
             else via != c && f[via].parent == f[x].id && Climb(LinksOf(f), f[d].id, k - 1) == Some(f[via].id)
                  && Weight(Put(f, c, d), via, effective)
                     == Weight(f, via, effective) + Load(f, d, k - 1, effective) * Weight(f, c, effective)
    ensures Contents(Put(f, c, d), x, effective, n)
         == Contents(f, x, effective, n)
            + if via < n then Load(f, d, k, effective) * Weight(f, c, effective) else 0.0
    decreases n
  {
    hide Load, Mult, Rank, LinksOf, Climb, Above, Contents, Weight, KidTerm, Put;
    if n == 0 {
      NoContents(f, x, effective);
      NoContents(Put(f, c, d), x, effective);
    } else {
      PutContentsOn(f, d, c, x, k, via, n - 1, effective);
      ContentsStep(f, x, effective, n);
      ContentsStep(Put(f, c, d), x, effective, n);
      if n - 1 == via {
        ViaTerm(f, d, c, x, k, via, effective);
      } else {
        PutOtherKid(f, d, c, x, k, via, n - 1, effective);
      }
    }
  }

  /** What the i-th item adds to the contents of x. */
  ghost function KidTerm(f: Forest, x: nat, effective: bool, i: nat): real
    requires IsForest(f) && x < |f| && i < |f|
  {
    if f[i].parent == f[x].id then Mult(f[x], effective) * Weight(f, i, effective) else 0.0
  }

  lemma NoContents(f: Forest, x: nat, effective: bool)
    requires IsForest(f) && x < |f|
    ensures Contents(f, x, effective, 0) == 0.0
  {
  }

  lemma ContentsStep(f: Forest, x: nat, effective: bool, n: nat)
    requires IsForest(f) && x < |f| && 1 <= n <= |f|
    ensures Contents(f, x, effective, n) == Contents(f, x, effective, n - 1) + KidTerm(f, x, effective, n - 1)
  {
  }

  /** The item through which c went in adds the load times the weight put in. */
  lemma ViaTerm(f: Forest, d: nat, c: nat, x: nat, k: nat, via: nat, effective: bool)
    requires IsForest(f) && MayGraft(f, d, c) && f[c].parent == 0 && x < |f| && via < |f|
    requires IsForest(Put(f, c, d)) && Climb(LinksOf(f), f[d].id, k) == Some(f[x].id)
    requires if k == 0 then via == c && Weight(Put(f, c, d), c, effective) == Weight(f, c, effective)
             else via != c && f[via].parent == f[x].id && Climb(LinksOf(f), f[d].id, k - 1) == Some(f[via].id)
                  && Weight(Put(f, c, d), via, effective)
                     == Weight(f, via, effective) + Load(f, d, k - 1, effective) * Weight(f, c, effective)
    ensures KidTerm(Put(f, c, d), x, effective, via)
         == KidTerm(f, x, effective, via) + Load(f, d, k, effective) * Weight(f, c, effective)
  {
    hide Weight, Load, Climb, LinksOf, Rank, Mult;
    LoadStep(f, d, x, k, effective, Weight(f, via, effective), Weight(f, c, effective));
  }

  lemma LoadStep(f: Forest, d: nat, x: nat, k: nat, effective: bool, w: real, e: real)
    requires DistinctIds(f) && d < |f| && x < |f| && Climb(LinksOf(f), f[d].id, k) == Some(f[x].id)
    ensures k == 0 ==> f[x].id == f[d].id && Load(f, d, k, effective) == Mult(f[x], effective)
    ensures k > 0 ==> Mult(f[x], effective) * (w + Load(f, d, k - 1, effective) * e)
                      == Mult(f[x], effective) * w + Load(f, d, k, effective) * e
  {
    hide Mult, LinksOf;
    assert MultAt(f, Some(f[x].id), effective) == Mult(f[x], effective);
    if k > 0 {
      Regroup(Mult(f[x], effective), w, Load(f, d, k - 1, effective), e);
    }
  }

  lemma Regroup(m: real, w: real, l: real, e: real)
    ensures m * (w + l * e) == m * w + m * l * e
  {
  }

  lemma PutOtherKid(f: Forest, d: nat, c: nat, x: nat, k: nat, via: nat, i: nat, effective: bool)
    requires IsForest(f) && MayGraft(f, d, c) && f[c].parent == 0 && x < |f| && via < |f| && i < |f| && i != via
    requires IsForest(Put(f, c, d)) && Climb(LinksOf(f), f[d].id, k) == Some(f[x].id)
    requires if k == 0 then via == c
             else f[via].parent == f[x].id && Climb(LinksOf(f), f[d].id, k - 1) == Some(f[via].id)
    ensures KidTerm(Put(f, c, d), x, effective, i) == KidTerm(f, x, effective, i)
  {
    hide Load, Rank, LinksOf;
    if i == c {
      NoSecondEntry(f, d, x, k);
    } else if f[i].parent == f[x].id {
      OffPathKid(f, d, x, k, via, i);
      PutContentsOff(f, d, c, i, |f|, effective);
    }
  }

  /** Higher up than d, item x is not d. */
  lemma NoSecondEntry(f: Forest, d: nat, x: nat, k: nat)
    requires IsForest(f) && d < |f| && x < |f| && Climb(LinksOf(f), f[d].id, k) == Some(f[x].id) && k >= 1
    ensures x != d
  {
    assert Ends(LinksOf(f), f[d].id);
    var n: nat :| Climb(LinksOf(f), f[d].id, n).None?;
    NoReturn(LinksOf(f), f[d].id, k, n);
  }

  lemma OffPathKid(f: Forest, d: nat, x: nat, k: nat, via: nat, i: nat)
    requires IsForest(f) && d < |f| && x < |f| && i < |f| && via < |f| && i != via
    requires Climb(LinksOf(f), f[d].id, k) == Some(f[x].id) && f[i].parent == f[x].id && f[x].id != 0
    requires k >= 1 ==> f[via].parent == f[x].id && Climb(LinksOf(f), f[d].id, k - 1) == Some(f[via].id)
    ensures !OnPath(f, d, i)
  {
    var p := LinksOf(f);
    if OnPath(f, d, i) {
      var m: nat :| Climb(p, f[d].id, m) == Some(f[i].id);
      if k >= 1 {
        if m <= k - 1 {
          OneWayDown(f, d, f[x].id, i, via, m, k - 1);
        } else {
          OneWayDown(f, d, f[x].id, via, i, k - 1, m);
        }
      } else {
        KidHop(f, x, i);
        ClimbAdd(p, f[d].id, m, 1);
        NoSecondEntry(f, d, x, m + 1);
      }
    }
  }

  // ---- capacity ----

  /** No container holds more than its capacity. */
  ghost predicate CapacitiesKept(f: Forest)
    requires IsForest(f)
  {
    forall i | 0 <= i < |f| :: WithinCapacity(f[i], Contents(f, i, false, |f|))
  }

  /** Every container around the new place has room for what goes in. */
  ghost predicate RoomAllTheWayUp(f: Forest, d: nat, c: nat)
    requires IsForest(f) && d < |f| && c < |f|
  {
    forall x | 0 <= x < |f| && OnPath(f, d, x) ::
      WithinCapacity(f[x], Contents(f, x, false, |f|) + Weight(f, c, false))
  }

  /** A put keeps every capacity exactly when there is room all the way up. */
  lemma PutCapacityExactly(f: Forest, d: nat, c: nat)
    requires IsForest(f) && MayGraft(f, d, c) && f[c].parent == 0 && CapacitiesKept(f)
    ensures IsForest(Put(f, c, d))
    ensures CapacitiesKept(Put(f, c, d)) <==> RoomAllTheWayUp(f, d, c)
  {
    PutIsForest(f, d, c);
    var f' := Put(f, c, d);
    forall x | 0 <= x < |f|
      ensures WithinCapacity(f'[x], Contents(f', x, false, |f|))
              <==> OnPath(f, d, x) ==> WithinCapacity(f[x], Contents(f, x, false, |f|) + Weight(f, c, false))
    {
      assert WithinCapacity(f[x], Contents(f, x, false, |f|));
      if OnPath(f, d, x) {
        var k: nat :| Climb(LinksOf(f), f[d].id, k) == Some(f[x].id);
        PutWeightOn(f, d, c, x, k, false);
        RawLoad(f, d, k);
      } else {
        PutContentsOff(f, d, c, x, |f|, false);
      }
    }
  }

  /** For a container that is not itself inside another, the check made is enough. */
  lemma RootPutKeepsCapacities(f: Forest, d: nat, c: nat)
    requires IsForest(f) && MayGraft(f, d, c) && f[c].parent == 0 && f[d].parent == 0 && CapacitiesKept(f)
    requires FitsCapacity(f, d, c)
    ensures IsForest(Put(f, c, d)) && CapacitiesKept(Put(f, c, d))
  {
    PutCapacityExactly(f, d, c);
    LinksAt(f, d);
    forall x | 0 <= x < |f| && OnPath(f, d, x)
      ensures x == d
    {
      var k: nat :| Climb(LinksOf(f), f[d].id, k) == Some(f[x].id);
      assert k == 0;
    }
  }

  // ---- carried weight ----

  /** The top of the path: the k-th container above d lies in nothing. */
  ghost predicate IsTop(f: Forest, d: nat, k: nat, r: nat)
    requires d < |f| && r < |f|
  {
    Climb(LinksOf(f), f[d].id, k) == Some(f[r].id) && f[r].parent == 0
  }

  lemma OnlyTop(f: Forest, d: nat, k: nat, r: nat, i: nat)
    requires IsForest(f) && d < |f| && r < |f| && i < |f| && IsTop(f, d, k, r)
    requires f[i].parent == 0 && OnPath(f, d, i)
    ensures i == r
  {
    var p := LinksOf(f);
    var m: nat :| Climb(p, f[d].id, m) == Some(f[i].id);
    LinksAt(f, i);
    LinksAt(f, r);
    ClimbAdd(p, f[d].id, m, 1);
    ClimbAdd(p, f[d].id, k, 1);
    if m < k {
      ClimbStays(p, f[d].id, m + 1, k);
    } else if k < m {
      ClimbStays(p, f[d].id, k + 1, m);
    }
  }

  lemma {:induction false} PutCarriedTo(f: Forest, d: nat, c: nat, k: nat, r: nat, n: nat, effective: bool)
    requires IsForest(f) && MayGraft(f, d, c) && f[c].parent == 0 && r < |f| && IsTop(f, d, k, r) && n <= |f|
    requires IsForest(Put(f, c, d))
    ensures Carried(Put(f, c, d), effective, n)
         == Carried(f, effective, n)
            - (if c < n then Weight(f, c, effective) else 0.0)
            + (if r < n then Load(f, d, k, effective) * Weight(f, c, effective) else 0.0)
  {
    if n > 0 {
      var i := n - 1;
      PutCarriedTo(f, d, c, k, r, i, effective);
      if i == c {
        NeverMeets(f, d, c);
      } else if i == r {
        PutWeightOn(f, d, c, r, k, effective);
      } else if f[i].parent == 0 {
        if OnPath(f, d, i) {
          OnlyTop(f, d, k, r, i);
        }
        PutContentsOff(f, d, c, i, |f|, effective);
      }
    }
  }

  /**
   A put changes the carried weight by exactly (load - 1) times what went in, the
   load being the product of the factors from the destination up to its root.
   */
  lemma PutCarried(f: Forest, d: nat, c: nat, k: nat, r: nat, effective: bool)
    requires IsForest(f) && MayGraft(f, d, c) && f[c].parent == 0 && r < |f| && IsTop(f, d, k, r)
    ensures IsForest(Put(f, c, d))
    ensures Carried(Put(f, c, d), effective, |f|)
         == Carried(f, effective, |f|) + (Load(f, d, k, effective) - 1.0) * Weight(f, c, effective)
  {
    PutIsForest(f, d, c);
    PutCarriedTo(f, d, c, k, r, |f|, effective);
  }

  /** Into a container held at the top level: (multiplier - 1) times the child's weight. */
  lemma RootPutCarried(f: Forest, d: nat, c: nat)
    requires IsForest(f) && MayGraft(f, d, c) && f[c].parent == 0 && f[d].parent == 0
    ensures IsForest(Put(f, c, d))
    ensures Carried(Put(f, c, d), true, |f|)
         == Carried(f, true, |f|) + (Mult(f[d], true) - 1.0) * Weight(f, c, true)
  {
    hide Carried, Weight, Contents, Load, Mult, LinksOf, Climb, Rank, IsTop;
    RootIsTop(f, d);
    PutCarried(f, d, c, 0, d, true);
    LoadHere(f, d, true);
  }

  /** The felt weights of those of the first n items that lie directly in x, added up. */
  function FeltInside(f: Forest, x: nat, n: nat): real
    requires IsForest(f) && x < |f| && n <= |f|
  {
    if n == 0 then 0.0
    else FeltInside(f, x, n - 1) + if f[n - 1].parent == f[x].id then Weight(f, n - 1, true) else 0.0
  }

  ghost predicate Multiplies(it: Item) {
    it.stats.Some? && it.stats.value.weightMult > 0.0
  }

  /** A container's multiplier applies once to all that is felt of what lies in it; any other item has none. */
  lemma {:induction false} FeltContents(f: Forest, x: nat, n: nat)
    requires IsForest(f) && x < |f| && n <= |f|
    ensures Multiplies(f[x]) ==> Contents(f, x, true, n) == f[x].stats.value.weightMult * FeltInside(f, x, n)
    ensures !Multiplies(f[x]) ==> Contents(f, x, true, n) == FeltInside(f, x, n)
    decreases n
  {
    if n > 0 {
      FeltContents(f, x, n - 1);
      if Multiplies(f[x]) {
        var m, before := f[x].stats.value.weightMult, FeltInside(f, x, n - 1);
        if f[n - 1].parent == f[x].id {
          Distributes(m, before, Weight(f, n - 1, true));
        }
      }
    }
  }

  lemma Distributes(m: real, a: real, b: real)
    ensures m * (a + b) == m * a + m * b
  {
  }

  /** An item feels as its own weight, once and unmultiplied, and what it holds, multiplied. */
  lemma FeltWeight(f: Forest, x: nat)
    requires IsForest(f) && x < |f|
    ensures Multiplies(f[x]) ==> Weight(f, x, true) == f[x].weight + f[x].stats.value.weightMult * FeltInside(f, x, |f|)
    ensures !Multiplies(f[x]) ==> Weight(f, x, true) == f[x].weight + FeltInside(f, x, |f|)
  {
    FeltContents(f, x, |f|);
  }

  /** The real weight of an item is its own and that of everything directly in it. */
  function RealInside(f: Forest, x: nat, n: nat): real
    requires IsForest(f) && x < |f| && n <= |f|
  {
    if n == 0 then 0.0
    else RealInside(f, x, n - 1) + if f[n - 1].parent == f[x].id then Weight(f, n - 1, false) else 0.0
  }

  lemma {:induction false} RealContents(f: Forest, x: nat, n: nat)
    requires IsForest(f) && x < |f| && n <= |f|
    ensures Contents(f, x, false, n) == RealInside(f, x, n)
    ensures n == |f| ==> Weight(f, x, false) == f[x].weight + RealInside(f, x, n)
    decreases n
  {
    if n > 0 {
      RealContents(f, x, n - 1);
    }
  }

  /** What the carrier feels of a put into a container held at the top level, by the container's multiplier. */
  lemma RootPutFelt(f: Forest, d: nat, c: nat)
    requires IsForest(f) && MayGraft(f, d, c) && f[c].parent == 0 && f[d].parent == 0
    ensures IsForest(Put(f, c, d))
    ensures Multiplies(f[d]) ==>
              Carried(Put(f, c, d), true, |f|)
              == Carried(f, true, |f|) + (f[d].stats.value.weightMult - 1.0) * Weight(f, c, true)
    ensures !Multiplies(f[d]) ==> Carried(Put(f, c, d), true, |f|) == Carried(f, true, |f|)
  {
    hide Carried, Weight, LinksOf, Rank;
    RootPutCarried(f, d, c);
  }

  /** Carrying nothing weighs nothing; carrying one thing is its weight with all that is in it. */
  lemma {:induction false} CarriedOne(f: Forest, r: nat, effective: bool, n: nat)
    requires IsForest(f) && r < |f| && n <= |f| && f[r].parent == 0
    requires forall i | 0 <= i < n && f[i].parent == 0 :: i == r
    ensures Carried(f, effective, n) == if r < n then Weight(f, r, effective) else 0.0
  {
    hide Weight;
    if n > 0 {
      CarriedOne(f, r, effective, n - 1);
    }
  }

  lemma RootIsTop(f: Forest, d: nat)
    requires d < |f| && f[d].parent == 0
    ensures IsTop(f, d, 0, d)
  {
  }

  lemma LoadHere(f: Forest, d: nat, effective: bool)
    requires DistinctIds(f) && d < |f|
    ensures Load(f, d, 0, effective) == Mult(f[d], effective)
  {
    assert MultAt(f, Some(f[d].id), effective) == Mult(f[d], effective);
  }

  /** Real weight is conserved by every put. */
  lemma PutKeepsRawWeight(f: Forest, d: nat, c: nat, k: nat, r: nat)
    requires IsForest(f) && MayGraft(f, d, c) && f[c].parent == 0 && r < |f| && IsTop(f, d, k, r)
    ensures IsForest(Put(f, c, d))
    ensures Carried(Put(f, c, d), false, |f|) == Carried(f, false, |f|)
  {
    PutCarried(f, d, c, k, r, false);
    RawLoad(f, d, k);
  }

  /** What is felt is never more than what is there, when no container adds weight. */
  lemma {:induction false} EffectiveAtMostRaw(f: Forest, x: nat, n: nat)
    requires IsForest(f) && x < |f| && n <= |f|
    requires forall i | 0 <= i < |f| :: f[i].weight >= 0.0 && Mult(f[i], true) <= 1.0
    ensures 0.0 <= Contents(f, x, true, n) <= Contents(f, x, false, n)
    ensures n == |f| ==> 0.0 <= Weight(f, x, true) <= Weight(f, x, false)
    decreases Rank(f, x), n
  {
    hide Mult, Rank;
    if n > 0 {
      EffectiveAtMostRaw(f, x, n - 1);
      if f[n - 1].parent == f[x].id {
        KidRank(f, x, n - 1);
        EffectiveAtMostRaw(f, n - 1, |f|);
        LighterKid(f[x], Weight(f, n - 1, true), Weight(f, n - 1, false));
      }
    }
  }

  lemma LighterKid(it: Item, a: real, b: real)
    requires Mult(it, true) <= 1.0 && 0.0 <= a <= b
    ensures 0.0 <= Mult(it, true) * a <= Mult(it, false) * b
  {
    var m := Mult(it, true);
    assert m * a <= 1.0 * a;
  }

  // ---- a nested destination ----

  /** A box of capacity 10 holds a bag of weight 5; a stone of weight 20 is carried beside them. */
  function NestedExample(): Forest {
    [Item(1, 0, 1.0, true, Some(Stats(10.0, 1.0, 0, 0))),
     Item(2, 1, 5.0, true, Some(Stats(100.0, 1.0, 0, 0))),
     Item(3, 0, 20.0, false, None)]
  }

  /**
   The checks look only at the destination: putting the stone into the bag passes
   them all, and the box around the bag ends up over its capacity.
   */
  lemma NestedPutOverfills()
    ensures var f := NestedExample();
      && IsForest(f) && Shallow(f) && MayGraft(f, 1, 2) && CapacitiesKept(f)
      && FitsDepth(f, 1, 2) && FitsCapacity(f, 1, 2)
      && IsForest(Put(f, 2, 1)) && !CapacitiesKept(Put(f, 2, 1))
  {
    var f := NestedExample();
    ExampleForest();
    PutCapacityExactly(f, 1, 2);
    assert Climb(LinksOf(f), f[1].id, 1) == Some(f[0].id);
    assert OnPath(f, 1, 0);
  }

  lemma ExampleLinks()
    ensures LinksOf(NestedExample()) == map[1 := 0, 2 := 1, 3 := 0]
  {
    var f := NestedExample();
    assert f[..2][..1] == f[..1] && f[..1][..0] == [];
    assert LinksOf(f[..1]) == map[1 := 0];
    assert LinksOf(f[..2]) == map[1 := 0, 2 := 1];
  }

  lemma ExampleForest()
    ensures var f := NestedExample();
      IsForest(f) && Shallow(f) && MayGraft(f, 1, 2) && FitsDepth(f, 1, 2)
  {
    var f := NestedExample();
    ExampleLinks();
    var p := LinksOf(f);
    forall x
      ensures Ends(p, x)
    {
      ExampleClimb(x);
    }
    ExampleClimb(1);
    ExampleClimb(2);
    ExampleClimb(3);
    assert !Above(p, 3, 2) by {
      forall k: nat | k >= 1
        ensures Climb(p, 2, k) != Some(3)
      {
        if k >= 2 { ClimbStays(p, 2, 2, k); }
      }
    }
    DepthIs(p, 2, 1);
    assert DepthBelow(f, 2) == 0;
  }

  lemma ExampleClimb(x: int)
    ensures var p := LinksOf(NestedExample());
      && Climb(p, x, 2).None? && Climb(p, x, 4).None? && Ends(p, x)
      && Climb(p, 2, 1) == Some(1)
  {
    ExampleLinks();
    var p := LinksOf(NestedExample());
    assert Climb(p, 1, 1).None? && Climb(p, 2, 1) == Some(1) && Climb(p, 2, 2).None?;
    if x != 2 {
      assert Climb(p, x, 1).None?;
      ClimbStays(p, x, 1, 2);
    }
    ClimbStays(p, x, 2, 4);
  }

  // ---- everything inside a container ----

  /** path leads from one item down to another, each listed among the contents of the one before. */
  ghost predicate IsPath(kids: map<int, seq<int>>, path: seq<int>) {
    && path != []
    && forall i | 0 <= i < |path| - 1 :: path[i] in kids && path[i + 1] in kids[path[i]]
  }

  ghost predicate Reachable(kids: map<int, seq<int>>, from: int, x: int) {
    exists path: seq<int> :: |path| >= 2 && path[0] == from && path[|path| - 1] == x && IsPath(kids, path)
  }

  lemma ExtendPath(kids: map<int, seq<int>>, from: int, id: int, k: int)
    requires id == from || Reachable(kids, from, id)
    requires id in kids && k in kids[id]
    ensures Reachable(kids, from, k)
  {
    if id == from {
      assert IsPath(kids, [from, k]);
    } else {
      var path :| |path| >= 2 && path[0] == from && path[|path| - 1] == id && IsPath(kids, path);
      var longer := path + [k];
      forall i | 0 <= i < |longer| - 1
        ensures longer[i] in kids && longer[i + 1] in kids[longer[i]]
      {
        assert longer[i] == path[i];
        if i < |path| - 1 {
          assert longer[i + 1] == path[i + 1];
        }
      }
      assert IsPath(kids, longer);
    }
  }

  /** A set closed under "contents of" holds everything reachable from its members. */
  lemma {:induction false} ClosedHolds(kids: map<int, seq<int>>, path: seq<int>, closed: set<int>, n: nat)
    requires IsPath(kids, path) && path[0] in closed && n < |path|
    requires forall id, k | id in closed && id in kids && k in kids[id] :: k in closed
    ensures path[n] in closed
  {
    if n > 0 {
      ClosedHolds(kids, path, closed, n - 1);
      assert path[n - 1] in kids && path[(n - 1) + 1] in kids[path[n - 1]];
    }
  }

  function IdSet(ids: seq<int>): set<int> {
    set id | id in ids
  }

  ghost predicate Distinct(ids: seq<int>) {
    forall i, j | 0 <= i < j < |ids| :: ids[i] != ids[j]
  }

  /** Every id listed anywhere. */
  ghost function Listed(kids: map<int, seq<int>>): set<int> {
    set id, k | id in kids && k in kids[id] :: k
  }

  ghost predicate Visited(kids: map<int, seq<int>>, parent: int, all: seq<int>, seen: set<int>) {
    && seen == {parent} + IdSet(all)
    && Distinct(all) && parent !in all
    && (forall k | k in all :: Reachable(kids, parent, k))
    && IdSet(all) <= Listed(kids)
  }

  /** Everything listed under an item that is not waiting has been seen. */
  ghost predicate Expanded(kids: map<int, seq<int>>, seen: set<int>, waiting: set<int>) {
    forall id, k | id in seen && id !in waiting && id in kids && k in kids[id] :: k in seen
  }

  /** Takes the unseen among the direct contents of one item. */
  method VisitKids(kids: map<int, seq<int>>, parent: int, id: int, all0: seq<int>, seen0: set<int>, next0: seq<int>)
    returns (all: seq<int>, seen: set<int>, next: seq<int>)
    requires Visited(kids, parent, all0, seen0) && id in seen0
    ensures Visited(kids, parent, all, seen)
    ensures seen0 <= seen && IdSet(next) == IdSet(next0) + (seen - seen0)
    ensures id in kids ==> forall k | k in kids[id] :: k in seen
  {
    all, seen, next := all0, seen0, next0;
    var listed := if id in kids then kids[id] else [];
    var j := 0;
    while j < |listed|
      invariant j <= |listed|
      invariant Visited(kids, parent, all, seen)
      invariant seen0 <= seen && IdSet(next) == IdSet(next0) + (seen - seen0)
      invariant forall k | k in listed[..j] :: k in seen
    {
      var k := listed[j];
      if k !in seen {
        VisitOne(kids, parent, id, k, all, seen);
        assert IdSet(next + [k]) == IdSet(next) + {k};
        seen := seen + {k};
        all := all + [k];
        next := next + [k];
      }
      j := j + 1;
    }
    assert listed[..j] == listed;
  }

  lemma VisitOne(kids: map<int, seq<int>>, parent: int, id: int, k: int, all: seq<int>, seen: set<int>)
    requires Visited(kids, parent, all, seen) && id in seen && id in kids && k in kids[id] && k !in seen
    ensures Visited(kids, parent, all + [k], seen + {k})
  {
    assert id == parent || id in IdSet(all);
    ExtendPath(kids, parent, id, k);
    assert k in Listed(kids);
    assert k !in IdSet(all);
    assert IdSet(all + [k]) == IdSet(all) + {k};
  }

  /** One round of the search: everything waiting is expanded, what is new waits next. It stops at a failing list. */
  method VisitFrontier(kids: map<int, seq<int>>, lost: set<int>, parent: int, frontier: seq<int>, all0: seq<int>,
                       seen0: set<int>)
    returns (ok: bool, all: seq<int>, seen: set<int>, next: seq<int>)
    requires Visited(kids, parent, all0, seen0) && IdSet(frontier) <= seen0
    requires Expanded(kids, seen0, IdSet(frontier))
    ensures ok <==> IdSet(frontier) !! lost
    ensures ok ==>
      && Visited(kids, parent, all, seen)
      && seen0 <= seen && IdSet(next) == seen - seen0
      && Expanded(kids, seen, IdSet(next))
  {
    hide Reachable, Distinct, Visited, Expanded;
    ok, all, seen, next := true, all0, seen0, [];
    assert frontier[0..] == frontier && IdSet(frontier) + IdSet([]) == IdSet(frontier);
    var i := 0;
    while i < |frontier|
      invariant i <= |frontier|
      invariant Visited(kids, parent, all, seen)
      invariant seen0 <= seen && IdSet(next) == seen - seen0
      invariant Expanded(kids, seen, IdSet(frontier[i..]) + IdSet(next))
      invariant ok && forall k | 0 <= k < i :: frontier[k] !in lost
    {
      assert frontier[i] in IdSet(frontier);
      if frontier[i] in lost {
        return false, all, seen, next;
      }
      ghost var seen1, next1 := seen, next;
      all, seen, next := VisitKids(kids, parent, frontier[i], all, seen, next);
      assert IdSet(frontier[i..]) == {frontier[i]} + IdSet(frontier[i + 1..]);
      ExpandStep(kids, frontier[i], seen1, seen, IdSet(frontier[i + 1..]), IdSet(next1), IdSet(next));
      i := i + 1;
    }
    assert frontier[i..] == [] && IdSet([]) + IdSet(next) == IdSet(next);
  }

  /**
   Breadth-first over any parent/child data, cycles included: exactly what can be
   reached from the container, each once, never the container itself. It fails just
   when the contents of something in it cannot be listed; `lost` are those ids.
   */
  method TransitiveContainerView(kids: map<int, seq<int>>, lost: set<int>, parent: int)
    returns (ok: bool, all: seq<int>)
    ensures ok <==> forall id | id in lost :: id != parent && !Reachable(kids, parent, id)
    ensures ok ==> Distinct(all) && parent !in all
    ensures ok ==> forall x :: x in all <==> x != parent && Reachable(kids, parent, x)
    ensures !ok ==> all == []
  {
    hide Reachable, Distinct, Visited, Expanded, IdSet, Listed;
    ok, all := true, [];
    var seen := {parent};
    var frontier := [parent];
    StartVisit(kids, parent);
    ghost var world := {parent} + Listed(kids);
    while |frontier| > 0
      invariant Visited(kids, parent, all, seen)
      invariant IdSet(frontier) <= seen
      invariant Expanded(kids, seen, IdSet(frontier))
      invariant ok && seen - IdSet(frontier) !! lost
      decreases |world - seen|, |frontier|
    {
      ghost var before := seen;
      LostIsReachable(kids, lost, parent, all, seen, frontier);
      var next;
      ok, all, seen, next := VisitFrontier(kids, lost, parent, frontier, all, seen);
      if !ok {
        return false, [];
      }
      SeenListed(kids, parent, all, seen);
      ShrinkingWorld(world, before, seen, next);
      frontier := next;
    }
    NoIds();
    AllReachable(kids, parent, all, seen);
  }

  lemma LostIsReachable(kids: map<int, seq<int>>, lost: set<int>, parent: int, all: seq<int>, seen: set<int>,
                        frontier: seq<int>)
    requires Visited(kids, parent, all, seen) && IdSet(frontier) <= seen
    ensures !(IdSet(frontier) !! lost) ==> exists id :: id in lost && (id == parent || Reachable(kids, parent, id))
  {
    hide Reachable, Distinct;
    if id :| id in IdSet(frontier) && id in lost {
      assert id in seen;
      assert id == parent || id in all;
    }
  }

  lemma NoIds()
    ensures IdSet([]) == {}
  {
  }

  lemma StartVisit(kids: map<int, seq<int>>, parent: int)
    ensures Visited(kids, parent, [], {parent}) && IdSet([parent]) == {parent}
    ensures Expanded(kids, {parent}, {parent})
  {
  }

  lemma SeenListed(kids: map<int, seq<int>>, parent: int, all: seq<int>, seen: set<int>)
    requires Visited(kids, parent, all, seen)
    ensures seen <= {parent} + Listed(kids)
  {
  }

  lemma ExpandStep(kids: map<int, seq<int>>, id: int, seen: set<int>, seen': set<int>, rest: set<int>, next: set<int>,
                   next': set<int>)
    requires Expanded(kids, seen, {id} + rest + next) && seen <= seen'
    requires next' == next + (seen' - seen)
    requires id in kids ==> forall k | k in kids[id] :: k in seen'
    ensures Expanded(kids, seen', rest + next')
  {
  }

  lemma AllReachable(kids: map<int, seq<int>>, parent: int, all: seq<int>, seen: set<int>)
    requires Visited(kids, parent, all, seen) && Expanded(kids, seen, {})
    ensures Distinct(all) && parent !in all
    ensures forall x :: x in seen <==> x == parent || x in all
    ensures forall x :: x in all <==> x != parent && Reachable(kids, parent, x)
  {
    forall x
      ensures x in all <==> x != parent && Reachable(kids, parent, x)
    {
      if Reachable(kids, parent, x) {
        var path :| |path| >= 2 && path[0] == parent && path[|path| - 1] == x && IsPath(kids, path);
        ClosedHolds(kids, path, seen, |path| - 1);
        assert x in seen;
      }
    }
  }

  /** What is newly seen leaves fewer listed ids unseen. */
  lemma ShrinkingWorld(world: set<int>, before: set<int>, after: set<int>, next: seq<int>)
    requires before <= after && IdSet(next) == after - before
    requires after <= world
    ensures |world - after| <= |world - before|
    ensures next != [] ==> |world - after| < |world - before|
  {
    var a, b, added := world - after, world - before, after - before;
    assert b == a + added;
    if next != [] {
      assert next[0] in added;
    }
  }
}
