/**
 Walking up a link map, where 0 and unmapped ids end the walk. Item nesting and
 follow chains are both such maps.

 The map is acyclic when every walk ends. That is kept by linking one id under
 another whose walk does not meet it, by cutting a link, and by taking an id
 out; the bounded walks of the original are compared with this in `ItemForest`
 and `Following`.
 */
module Walks {
  import opened Basics

  type Links = map<int, int>

  function Hop(p: Links, x: int): Option<int> {
    if x in p && p[x] != 0 then Some(p[x]) else None
  }

  /** The id k hops above x. */
  function Climb(p: Links, x: int, k: nat): Option<int>
    decreases k
  {
    if k == 0 then Some(x)
    else match Hop(p, x)
      case None => None
      case Some(y) => Climb(p, y, k - 1)
  }

  /** a is a proper ancestor of x. */
  ghost predicate Above(p: Links, a: int, x: int) {
    exists k: nat :: k >= 1 && Climb(p, x, k) == Some(a)
  }

  ghost predicate AboveOrSame(p: Links, a: int, x: int) {
    exists k: nat :: Climb(p, x, k) == Some(a)
  }

  ghost predicate Ends(p: Links, x: int) {
    exists n: nat :: Climb(p, x, n).None?
  }

  /** Every walk ends: there is no cycle. */
  ghost predicate Acyclic(p: Links) {
    forall x :: Ends(p, x)
  }

  lemma {:induction false} ClimbAdd(p: Links, x: int, j: nat, k: nat)
    ensures Climb(p, x, j + k) == if Climb(p, x, j).None? then None else Climb(p, Climb(p, x, j).value, k)
    decreases j
  {
    if j > 0 && Hop(p, x).Some? {
      ClimbAdd(p, Hop(p, x).value, j - 1, k);
    }
  }

  lemma ClimbStays(p: Links, x: int, j: nat, k: nat)
    requires Climb(p, x, j).None? && j <= k
    ensures Climb(p, x, k).None?
  {
    ClimbAdd(p, x, j, k - j);
  }

  /** Relinking c changes no walk before it meets c. */
  lemma {:induction false} RelinkBefore(p: Links, c: int, d: int, x: int, k: nat)
    requires forall j: nat | j < k :: Climb(p, x, j) != Some(c)
    ensures Climb(p[c := d], x, k) == Climb(p, x, k)
    decreases k
  {
    if k > 0 {
      assert Climb(p, x, 0) == Some(x);
      if Hop(p, x).Some? {
        var y := Hop(p, x).value;
        forall j: nat | j < k - 1
          ensures Climb(p, y, j) != Some(c)
        {
          assert Climb(p, x, j + 1) == Climb(p, y, j);
        }
        RelinkBefore(p, c, d, y, k - 1);
      }
    }
  }

  /** If x reaches c, it does so a first time. */
  lemma FirstMeeting(p: Links, x: int, c: int, k: nat) returns (first: nat)
    requires Climb(p, x, k) == Some(c)
    ensures first <= k && Climb(p, x, first) == Some(c)
    ensures forall j: nat | j < first :: Climb(p, x, j) != Some(c)
  {
    first := 0;
    while Climb(p, x, first) != Some(c)
      invariant first <= k
      invariant forall j: nat | j < first :: Climb(p, x, j) != Some(c)
      decreases k - first
    {
      first := first + 1;
    }
  }

  /** In a walk that ends nobody meets itself. */
  lemma {:induction false} NoReturn(p: Links, x: int, k: nat, n: nat)
    requires k >= 1 && Climb(p, x, n).None?
    ensures Climb(p, x, k) != Some(x)
    decreases n
  {
    if Climb(p, x, k) == Some(x) {
      if n >= k {
        ClimbAdd(p, x, k, n - k);
        NoReturn(p, x, k, n - k);
      } else {
        ClimbStays(p, x, n, k);
      }
    }
  }

  /** Where a relinked walk goes: through c it continues above d. */
  lemma RelinkThrough(p: Links, c: int, d: int, x: int, k: nat, m: nat)
    requires Climb(p, x, k) == Some(c) && forall j: nat | j < k :: Climb(p, x, j) != Some(c)
    requires d != 0 && forall j: nat | j < m :: Climb(p, d, j) != Some(c)
    ensures Climb(p[c := d], x, k + 1 + m) == Climb(p, d, m)
  {
    var q := p[c := d];
    RelinkBefore(p, c, d, x, k);
    RelinkBefore(p, c, d, d, m);
    ClimbAdd(q, x, k, 1 + m);
  }

  /** Linking c under d keeps the map acyclic when d is not c and not below c. */
  lemma GraftAcyclic(p: Links, c: int, d: int)
    requires Acyclic(p) && d != 0
    requires forall k: nat :: Climb(p, d, k) != Some(c)
    ensures Acyclic(p[c := d])
  {
    var q := p[c := d];
    forall x
      ensures Ends(q, x)
    {
      assert Ends(p, x) && Ends(p, d);
      if AboveOrSame(p, c, x) {
        var k: nat :| Climb(p, x, k) == Some(c);
        var first := FirstMeeting(p, x, c, k);
        var m: nat :| Climb(p, d, m).None?;
        RelinkThrough(p, c, d, x, first, m);
        assert Climb(q, x, first + 1 + m).None?;
      } else {
        var n: nat :| Climb(p, x, n).None?;
        RelinkBefore(p, c, d, x, n);
        assert Climb(q, x, n).None?;
      }
    }
  }

  /** And only then: a d below c would close a circle. */
  lemma GraftExactly(p: Links, c: int, d: int)
    requires Acyclic(p) && d != 0
    ensures Acyclic(p[c := d]) <==> !AboveOrSame(p, c, d)
  {
    if AboveOrSame(p, c, d) {
      var k: nat :| Climb(p, d, k) == Some(c);
      var first := FirstMeeting(p, d, c, k);
      RelinkThrough(p, c, d, d, first, 0);
      Circle(p[c := d], d, first + 1);
    } else {
      GraftAcyclic(p, c, d);
    }
  }

  lemma Circle(p: Links, x: int, k: nat)
    requires k >= 1 && Climb(p, x, k) == Some(x)
    ensures !Acyclic(p)
  {
    if Acyclic(p) {
      assert Ends(p, x);
      var n: nat :| Climb(p, x, n).None?;
      NoReturn(p, x, k, n);
    }
  }

  /** Ending the walk at c keeps the map acyclic. */
  lemma CutAcyclic(p: Links, c: int)
    requires Acyclic(p)
    ensures Acyclic(p[c := 0])
  {
    var q := p[c := 0];
    forall x
      ensures Ends(q, x)
    {
      assert Ends(p, x);
      var n: nat :| Climb(p, x, n).None?;
      CutEnds(p, c, x, n);
    }
  }

  lemma CutEnds(p: Links, c: int, x: int, n: nat)
    requires Climb(p, x, n).None?
    ensures Climb(p[c := 0], x, n + 1).None?
  {
    var q := p[c := 0];
    if exists k: nat :: k <= n && Climb(p, x, k) == Some(c) {
      var k: nat :| k <= n && Climb(p, x, k) == Some(c);
      var first := FirstMeeting(p, x, c, k);
      RelinkBefore(p, c, 0, x, first);
      ClimbAdd(q, x, first, 1);
      ClimbStays(q, x, first + 1, n + 1);
    } else {
      RelinkBefore(p, c, 0, x, n);
      ClimbStays(q, x, n, n + 1);
    }
  }

  /** Forgetting a link only shortens walks. */
  lemma {:induction false} RemoveEnds(p: Links, c: int, x: int, n: nat)
    requires Climb(p, x, n).None?
    ensures Climb(p - {c}, x, n).None?
    decreases n
  {
    if n > 0 && Hop(p - {c}, x).Some? {
      RemoveEnds(p, c, Hop(p, x).value, n - 1);
    }
  }

  lemma RemoveAcyclic(p: Links, c: int)
    requires Acyclic(p)
    ensures Acyclic(p - {c})
  {
    forall x
      ensures Ends(p - {c}, x)
    {
      assert Ends(p, x);
      var n: nat :| Climb(p, x, n).None?;
      RemoveEnds(p, c, x, n);
      assert Climb(p - {c}, x, n).None?;
    }
  }
}
