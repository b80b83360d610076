/**
 Timed affects on a creature: stacking, counting down, and the hit points a tick
 costs or gives. Durations and hit points are 32-bit words, damage a 16-bit word.
 */
module AffectList {
  const MAX_PER_NAME := 4
  const MIN32: int := -0x8000_0000
  const MAX32: int := 0x7FFF_FFFF
  const MAX16: int := 0x7FFF

  type Int32 = x: int | -0x8000_0000 <= x <= 0x7FFF_FFFF
  type Int16 = x: int | -0x8000 <= x <= 0x7FFF

  function Wrap32(x: int): (w: Int32)
    ensures -0x8000_0000 <= x <= 0x7FFF_FFFF ==> w == x
  {
    (x + 0x8000_0000) % 0x1_0000_0000 - 0x8000_0000
  }

  function Wrap16(x: int): (w: Int16)
    ensures -0x8000 <= x <= 0x7FFF ==> w == x
  {
    (x + 0x8000) % 0x1_0000 - 0x8000
  }

  /** `rest` stands for the modifiers, conditions and messages, which are carried along. */
  datatype Affect = Affect(source: int, name: string, duration: Int32, effect: string, damage: Int16, rest: int)

  predicate SameKey(a: Affect, b: Affect) {
    a.source == b.source && a.name == b.name
  }

  function Count(list: seq<Affect>, name: string): nat {
    if list == [] then 0 else Count(list[..|list| - 1], name) + (if list[|list| - 1].name == name then 1 else 0)
  }

  ghost predicate Distinct(list: seq<Affect>) {
    forall i, j | 0 <= i < j < |list| :: !SameKey(list[i], list[j])
  }

  ghost predicate Capped(list: seq<Affect>) {
    forall name: string :: Count(list, name) <= MAX_PER_NAME
  }

  /** v is the first of the shortest-lived entries of the name. */
  ghost predicate IsVictim(list: seq<Affect>, name: string, v: nat) {
    && v < |list| && list[v].name == name
    && (forall k | 0 <= k < |list| && list[k].name == name :: list[v].duration <= list[k].duration)
    && (forall k | 0 <= k < v && list[k].name == name :: list[v].duration < list[k].duration)
  }

  function Cut(list: seq<Affect>, v: nat): seq<Affect>
    requires v < |list|
  {
    list[..v] + list[v + 1..]
  }

  /** What an application gives: the entry of that key replaced where it stood, or the new one at the end. */
  ghost predicate IsApplied(list: seq<Affect>, a: Affect, out: seq<Affect>) {
    || (exists i :: 0 <= i < |list| && SameKey(list[i], a) && out == list[i := a])
    || ((forall k | 0 <= k < |list| :: !SameKey(list[k], a)) && Count(list, a.name) < MAX_PER_NAME && out == list + [a])
    || ((forall k | 0 <= k < |list| :: !SameKey(list[k], a)) && Count(list, a.name) >= MAX_PER_NAME
       && exists v: nat :: IsVictim(list, a.name, v) && out == Cut(list, v) + [a])
  }

  lemma {:induction false} CountAppend(a: seq<Affect>, b: seq<Affect>, name: string)
    ensures Count(a + b, name) == Count(a, name) + Count(b, name)
    decreases |b|
  {
    if b == [] {
      assert a + b == a;
    } else {
      assert (a + b)[..|a + b| - 1] == a + b[..|b| - 1];
      CountAppend(a, b[..|b| - 1], name);
    }
  }

  lemma CountOne(a: Affect, name: string)
    ensures Count([a], name) == if a.name == name then 1 else 0
  {
    assert [a][..0] == [];
  }

  lemma CountAt(list: seq<Affect>, i: nat, name: string)
    requires i < |list|
    ensures Count(list, name) == Count(list[..i], name) + Count([list[i]], name) + Count(list[i + 1..], name)
  {
    hide Count;
    assert list == list[..i] + [list[i]] + list[i + 1..];
    CountAppend(list[..i] + [list[i]], list[i + 1..], name);
    CountAppend(list[..i], [list[i]], name);
  }

  lemma CountCut(list: seq<Affect>, v: nat, name: string)
    requires v < |list|
    ensures Count(Cut(list, v), name) == Count(list, name) - (if list[v].name == name then 1 else 0)
  {
    hide Count;
    CountAt(list, v, name);
    CountOne(list[v], name);
    CountAppend(list[..v], list[v + 1..], name);
  }

  lemma CountReplaced(list: seq<Affect>, i: nat, a: Affect, name: string)
    requires i < |list| && list[i].name == a.name
    ensures Count(list[i := a], name) == Count(list, name)
  {
    hide Count;
    CountAt(list, i, name);
    CountAt(list[i := a], i, name);
    CountOne(list[i], name);
    CountOne(a, name);
    assert list[i := a][..i] == list[..i] && list[i := a][i + 1..] == list[i + 1..];
  }

  /** An application leaves no name with more entries than before or the cap, and keys stay distinct. */
  lemma AppliedKeeps(list: seq<Affect>, a: Affect, out: seq<Affect>)
    requires IsApplied(list, a, out)
    ensures Distinct(list) ==> Distinct(out)
    ensures forall name: string :: Count(out, name) <= Count(list, name) || Count(out, name) <= 4
    ensures a in out
  {
    AppliedCounts(list, a, out);
    if Distinct(list) {
      assert Distinct(out);
    }
    AppliedIsThere(list, a, out);
  }

  lemma AppliedIsThere(list: seq<Affect>, a: Affect, out: seq<Affect>)
    requires IsApplied(list, a, out)
    ensures a in out
  {
    hide Count, IsVictim, SameKey, Cut;
    if i :| 0 <= i < |list| && SameKey(list[i], a) && out == list[i := a] {
      assert out[i] == a;
    } else {
      assert out != [] && out[|out| - 1] == a;
    }
  }

  lemma AppliedCounts(list: seq<Affect>, a: Affect, out: seq<Affect>)
    requires IsApplied(list, a, out)
    ensures forall name: string :: Count(out, name) <= Count(list, name) || Count(out, name) <= MAX_PER_NAME
  {
    hide Count;
    forall name: string
      ensures Count(out, name) <= Count(list, name) || Count(out, name) <= MAX_PER_NAME
    {
      CountOne(a, name);
      if i :| 0 <= i < |list| && SameKey(list[i], a) && out == list[i := a] {
        CountReplaced(list, i, a, name);
      } else if out == list + [a] && Count(list, a.name) < MAX_PER_NAME {
        CountAppend(list, [a], name);
      } else {
        var v: nat :| IsVictim(list, a.name, v) && out == Cut(list, v) + [a];
        CountCut(list, v, name);
        CountAppend(Cut(list, v), [a], name);
      }
    }
  }

  /** Drops the shortest-lived entry of a name that is at its cap. */
  method EvictForName(list: seq<Affect>, name: string) returns (out: seq<Affect>)
    ensures Count(list, name) < 4 ==> out == list
    ensures Count(list, name) >= 4 ==> exists v: nat :: IsVictim(list, name, v) && out == Cut(list, v)
  {
    var count, i := 0, 0;
    assert list[..0] == [];
    while i < |list|
      invariant i <= |list| && count == Count(list[..i], name)
    {
      assert list[..i + 1][..i] == list[..i];
      if list[i].name == name {
        count := count + 1;
      }
      i := i + 1;
    }
    assert list[..i] == list;
    if count < MAX_PER_NAME {
      return list;
    }
    var victim: int := -1;
    i := 0;
    assert list[..0] == [];
    while i < |list|
      invariant i <= |list| && -1 <= victim < i
      invariant victim == -1 ==> Count(list[..i], name) == 0
      invariant victim >= 0 ==> IsVictim(list[..i], name, victim)
    {
      assert list[..i + 1][..i] == list[..i];
      if list[i].name == name && (victim == -1 || list[i].duration < list[victim].duration) {
        NoneBefore(list[..i], name);
        victim := i;
      }
      i := i + 1;
    }
    assert list[..i] == list;
    out := list[..victim] + list[victim + 1..];
    assert out == Cut(list, victim);
  }

  lemma {:induction false} NoneBefore(list: seq<Affect>, name: string)
    ensures Count(list, name) == 0 ==> forall k | 0 <= k < |list| :: list[k].name != name
  {
    if list != [] {
      NoneBefore(list[..|list| - 1], name);
    }
  }

  /** Adds an affect or replaces the one of the same source and name; the input is left alone. */
  method Apply(list: seq<Affect>, a: Affect) returns (out: seq<Affect>)
    ensures IsApplied(list, a, out)
  {
    hide Count, IsVictim;
    var i := 0;
    while i < |list|
      invariant i <= |list| && forall k | 0 <= k < i :: !SameKey(list[k], a)
    {
      if list[i].source == a.source && list[i].name == a.name {
        return list[i := a];
      }
      i := i + 1;
    }
    out := EvictForName(list, a.name);
    out := out + [a];
  }

  // ---- ticking ----

  predicate Survives(a: Affect) {
    Wrap32(a.duration - 1) > 0
  }

  /** One tick of the survivors, in order. */
  function Survivors(list: seq<Affect>): seq<Affect> {
    if list == [] then []
    else
      Survivors(list[..|list| - 1])
      + (var a := list[|list| - 1]; if Survives(a) then [a.(duration := Wrap32(a.duration - 1))] else [])
  }

  /** The others, in order. */
  function Expired(list: seq<Affect>): seq<Affect> {
    if list == [] then []
    else Expired(list[..|list| - 1]) + (var a := list[|list| - 1]; if Survives(a) then [] else [a.(duration := 0)])
  }

  method Tick(list: seq<Affect>) returns (out: seq<Affect>, expired: seq<Affect>)
    ensures out == Survivors(list) && expired == Expired(list)
  {
    out, expired := [], [];
    var i := 0;
    assert list[..0] == [];
    while i < |list|
      invariant i <= |list| && out == Survivors(list[..i]) && expired == Expired(list[..i])
    {
      assert list[..i + 1][..i] == list[..i];
      var a := list[i];
      a := a.(duration := Wrap32(a.duration - 1));
      if a.duration <= 0 {
        expired := expired + [a.(duration := 0)];
      } else {
        out := out + [a];
      }
      i := i + 1;
    }
    assert list[..i] == list;
  }

  /** An entry outlives a tick exactly when it had more than one left, or the least 32-bit duration, which wraps. */
  lemma SurvivesExactly(a: Affect)
    ensures Survives(a) <==> a.duration > 1 || a.duration == MIN32
  {
  }

  function Keys(list: seq<Affect>): multiset<(int, string)> {
    if list == [] then multiset{}
    else Keys(list[..|list| - 1]) + multiset{(list[|list| - 1].source, list[|list| - 1].name)}
  }

  lemma KeysSnoc(list: seq<Affect>, a: Affect)
    ensures Keys(list + [a]) == Keys(list) + multiset{(a.source, a.name)}
  {
    assert (list + [a])[..|list|] == list;
  }

  /** A tick loses and invents no entry: each goes to exactly one of the two lists. */
  lemma {:induction false} TickPartitions(list: seq<Affect>)
    ensures Keys(list) == Keys(Survivors(list)) + Keys(Expired(list))
    ensures |list| == |Survivors(list)| + |Expired(list)|
  {
    hide Survives, Keys;
    if list == [] {
      KeysNothing();
    } else {
      var before, a := list[..|list| - 1], list[|list| - 1];
      assert list == before + [a];
      TickPartitions(before);
      KeysSnoc(before, a);
      if Survives(a) {
        KeysSnoc(Survivors(before), a.(duration := Wrap32(a.duration - 1)));
        assert Expired(list) == Expired(before);
      } else {
        KeysSnoc(Expired(before), a.(duration := 0));
        assert Survivors(list) == Survivors(before);
      }
    }
  }

  lemma KeysNothing()
    ensures Keys([]) == multiset{}
  {
  }

  /** Entry k of the survivors comes from an entry of the list; they come in the same order. */
  lemma {:induction false} SurvivorComesFrom(list: seq<Affect>, j: nat, k: nat) returns (p: nat, q: nat)
    requires j < k < |Survivors(list)|
    ensures p < q < |list|
    ensures Survives(list[p]) && Survivors(list)[j] == list[p].(duration := Wrap32(list[p].duration - 1))
    ensures Survives(list[q]) && Survivors(list)[k] == list[q].(duration := Wrap32(list[q].duration - 1))
  {
    hide Survives;
    var before := list[..|list| - 1];
    if k < |Survivors(before)| {
      p, q := SurvivorComesFrom(before, j, k);
    } else {
      p := OneComesFrom(before, j);
      q := |list| - 1;
    }
  }

  lemma {:induction false} OneComesFrom(list: seq<Affect>, j: nat) returns (p: nat)
    requires j < |Survivors(list)|
    ensures p < |list| && Survives(list[p]) && Survivors(list)[j] == list[p].(duration := Wrap32(list[p].duration - 1))
  {
    hide Survives;
    var before := list[..|list| - 1];
    if j < |Survivors(before)| {
      p := OneComesFrom(before, j);
    } else {
      p := |list| - 1;
    }
  }

  /** The expired come from the entries that do not survive, in the same order, with nothing left to run. */
  lemma {:induction false} ExpiredComesFrom(list: seq<Affect>, j: nat, k: nat) returns (p: nat, q: nat)
    requires j < k < |Expired(list)|
    ensures p < q < |list|
    ensures !Survives(list[p]) && Expired(list)[j] == list[p].(duration := 0)
    ensures !Survives(list[q]) && Expired(list)[k] == list[q].(duration := 0)
  {
    hide Survives;
    var before := list[..|list| - 1];
    if k < |Expired(before)| {
      p, q := ExpiredComesFrom(before, j, k);
    } else {
      p := OneExpiredFrom(before, j);
      q := |list| - 1;
    }
  }

  lemma {:induction false} OneExpiredFrom(list: seq<Affect>, j: nat) returns (p: nat)
    requires j < |Expired(list)|
    ensures p < |list| && !Survives(list[p]) && Expired(list)[j] == list[p].(duration := 0)
  {
    hide Survives;
    var before := list[..|list| - 1];
    if j < |Expired(before)| {
      p := OneExpiredFrom(before, j);
    } else {
      p := |list| - 1;
    }
  }

  lemma SurvivorsDistinct(list: seq<Affect>)
    requires Distinct(list)
    ensures Distinct(Survivors(list))
  {
    hide Survives, Survivors;
    var out := Survivors(list);
    forall j, k | 0 <= j < k < |out|
      ensures !SameKey(out[j], out[k])
    {
      var p, q := SurvivorComesFrom(list, j, k);
      assert !SameKey(list[p], list[q]);
    }
  }

  lemma {:induction false} SurvivorsCount(list: seq<Affect>, name: string)
    ensures Count(Survivors(list), name) <= Count(list, name)
  {
    hide Survives;
    if list != [] {
      var before, a := list[..|list| - 1], list[|list| - 1];
      SurvivorsCount(before, name);
      if Survives(a) {
        CountAppend(Survivors(before), [a.(duration := Wrap32(a.duration - 1))], name);
        CountOne(a.(duration := Wrap32(a.duration - 1)), name);
      } else {
        assert Survivors(list) == Survivors(before);
      }
    }
  }

  // ---- runs ----

  datatype Act = Put(affect: Affect) | Beat

  ghost predicate Next(list: seq<Affect>, act: Act, out: seq<Affect>) {
    match act
    case Put(a) => IsApplied(list, a, out)
    case Beat => out == Survivors(list)
  }

  /** states[k] is the list before act k. */
  ghost predicate IsRun(states: seq<seq<Affect>>, acts: seq<Act>) {
    |states| == |acts| + 1 && states[0] == [] && forall k | 0 <= k < |acts| :: Next(states[k], acts[k], states[k + 1])
  }

  lemma NextKeeps(list: seq<Affect>, act: Act, out: seq<Affect>)
    requires Next(list, act, out) && Distinct(list) && Capped(list)
    ensures Distinct(out) && Capped(out)
  {
    hide Distinct, Count, IsApplied, Survivors;
    match act
    case Put(a) =>
      AppliedKeeps(list, a, out);
    case Beat =>
      SurvivorsDistinct(list);
      forall name: string
        ensures Count(out, name) <= MAX_PER_NAME
      {
        SurvivorsCount(list, name);
      }
  }

  /** In every run (source, name) pairs stay distinct, with no more than four entries a name. */
  lemma {:induction false} RunKeeps(states: seq<seq<Affect>>, acts: seq<Act>, k: nat)
    requires IsRun(states, acts) && k <= |acts|
    ensures Distinct(states[k]) && Capped(states[k])
  {
    hide Capped, Distinct, Next;
    if k == 0 {
      NothingKeeps();
    } else {
      RunKeeps(states, acts, k - 1);
      NextKeeps(states[k - 1], acts[k - 1], states[k]);
    }
  }

  lemma NothingKeeps()
    ensures Distinct([]) && Capped([])
  {
  }

  /** Durations lie above the least word and no higher than d. */
  ghost predicate Within(list: seq<Affect>, d: int) {
    forall a | a in list :: MIN32 < a.duration <= d
  }

  lemma NextWithin(list: seq<Affect>, act: Act, out: seq<Affect>, d: int)
    requires Next(list, act, out) && Within(list, d) && (act.Put? ==> MIN32 < act.affect.duration <= d)
    ensures Within(out, d)
  {
    hide Count, IsVictim, SameKey;
    match act
    case Put(a) =>
    case Beat =>
      forall x | x in out
        ensures MIN32 < x.duration <= d
      {
        var j :| 0 <= j < |out| && out[j] == x;
        var p := OneComesFrom(list, j);
        assert list[p] in list;
      }
  }

  lemma {:induction false} RunWithin(states: seq<seq<Affect>>, acts: seq<Act>, k: nat, d: int)
    requires IsRun(states, acts) && k <= |acts|
    requires forall a | Put(a) in acts :: MIN32 < a.duration <= d
    ensures Within(states[k], d)
  {
    hide Next, Within;
    if k == 0 {
      assert Within([], d) by {
        NothingWithin(d);
      }
    } else {
      RunWithin(states, acts, k - 1, d);
      assert acts[k - 1] in acts;
      NextWithin(states[k - 1], acts[k - 1], states[k], d);
    }
  }

  lemma NothingWithin(d: int)
    ensures Within([], d)
  {
  }

  function Beats(list: seq<Affect>, n: nat): seq<Affect>
    decreases n
  {
    if n == 0 then list else Beats(Survivors(list), n - 1)
  }

  lemma SurvivorsWithin(list: seq<Affect>, d: int)
    requires Within(list, d)
    ensures Within(Survivors(list), d - 1)
    ensures d <= 1 ==> Survivors(list) == []
  {
    var out := Survivors(list);
    forall x | x in out
      ensures MIN32 < x.duration <= d - 1 && x.duration > 0
    {
      var j :| 0 <= j < |out| && out[j] == x;
      var p := OneComesFrom(list, j);
      assert list[p] in list;
    }
    assert out != [] ==> out[0] in out;
  }

  /** What lasts no longer than d is gone after d ticks. */
  lemma {:induction false} GoneAfter(list: seq<Affect>, d: nat)
    requires Within(list, d) && d >= 1
    ensures Beats(list, d) == []
    decreases d
  {
    hide Within, Survivors;
    SurvivorsWithin(list, d);
    if d > 1 {
      GoneAfter(Survivors(list), d - 1);
    }
  }

  /** After any run that applied nothing longer than d, d ticks clear the list. */
  lemma RunGone(states: seq<seq<Affect>>, acts: seq<Act>, d: nat)
    requires IsRun(states, acts) && d >= 1
    requires forall a | Put(a) in acts :: MIN32 < a.duration <= d
    ensures Beats(states[|acts|], d) == []
  {
    hide Within, Beats;
    RunWithin(states, acts, |acts|, d);
    GoneAfter(states[|acts|], d);
  }

  lemma {:induction false} SurvivorIsThere(list: seq<Affect>, p: nat)
    requires p < |list| && Survives(list[p])
    ensures list[p].(duration := Wrap32(list[p].duration - 1)) in Survivors(list)
  {
    hide Survives, Wrap32;
    if p < |list| - 1 {
      SurvivorIsThere(list[..|list| - 1], p);
    }
  }

  lemma SurvivorsExactly(list: seq<Affect>, d: nat)
    requires 1 < d <= MAX32
    ensures Within(Survivors(list), d - 1) <==> Within(list, d)
  {
    hide Survivors;
    if Within(list, d) {
      SurvivorsWithin(list, d);
    }
    if Within(Survivors(list), d - 1) {
      forall a | a in list
        ensures MIN32 < a.duration <= d
      {
        var p :| 0 <= p < |list| && list[p] == a;
        if Survives(a) {
          SurvivorIsThere(list, p);
        }
      }
    }
  }

  lemma NoneSurvive(list: seq<Affect>)
    ensures Survivors(list) == [] <==> Within(list, 1)
  {
    hide Survivors;
    if Within(list, 1) {
      SurvivorsWithin(list, 1);
    }
    if Survivors(list) == [] {
      forall a | a in list
        ensures MIN32 < a.duration <= 1
      {
        var p :| 0 <= p < |list| && list[p] == a;
        if Survives(a) {
          SurvivorIsThere(list, p);
        }
      }
    }
  }

  /** d ticks clear a list exactly when all of it lasts no longer than d, and nothing holds the word that wraps. */
  lemma {:induction false} GoneExactly(list: seq<Affect>, d: nat)
    requires 1 <= d <= MAX32
    ensures Beats(list, d) == [] <==> Within(list, d)
    decreases d
  {
    hide Within, Survivors;
    if d == 1 {
      NoneSurvive(list);
    } else {
      SurvivorsExactly(list, d);
      GoneExactly(Survivors(list), d - 1);
    }
  }

  // ---- hit points ----

  datatype Event = Event(name: string, delta: Int16, newHp: Int32, effect: string)

  predicate Ticks(a: Affect) {
    a.effect != "" && a.damage != 0
  }

  function Clamped(hp: int, max: int): int {
    var floored := if hp < 0 then 0 else hp;
    if max > 0 && floored > max then max else floored
  }

  /** Hit points after one effect, in 32-bit words. */
  function Hit(hp: Int32, max: Int32, a: Affect): (next: int)
    ensures MIN32 <= next <= MAX32
  {
    Clamped(Wrap32(hp + a.damage), max)
  }

  function HpAfter(hp: Int32, max: Int32, list: seq<Affect>): Int32
    decreases |list|
  {
    if list == [] then hp
    else HpAfter(if Ticks(list[0]) then Hit(hp, max, list[0]) else hp, max, list[1..])
  }

  function EventsOf(hp: Int32, max: Int32, list: seq<Affect>): seq<Event>
    decreases |list|
  {
    if list == [] then []
    else if !Ticks(list[0]) then EventsOf(hp, max, list[1..])
    else
      var a, next := list[0], Hit(hp, max, list[0]);
      (if Wrap32(next - hp) == 0 then [] else [Event(a.name, Wrap16(Wrap32(next - hp)), next, a.effect)])
      + EventsOf(next, max, list[1..])
  }

  lemma FoldStep(hp: Int32, max: Int32, list: seq<Affect>)
    requires list != []
    ensures !Ticks(list[0]) ==>
      HpAfter(hp, max, list) == HpAfter(hp, max, list[1..]) && EventsOf(hp, max, list) == EventsOf(hp, max, list[1..])
    ensures Ticks(list[0]) ==>
      var next, a := Hit(hp, max, list[0]), list[0];
      && HpAfter(hp, max, list) == HpAfter(next, max, list[1..])
      && (Wrap32(next - hp) == 0 ==> next == hp && EventsOf(hp, max, list) == EventsOf(next, max, list[1..]))
      && (Wrap32(next - hp) != 0 ==>
        EventsOf(hp, max, list)
        == [Event(a.name, Wrap16(Wrap32(next - hp)), next, a.effect)] + EventsOf(next, max, list[1..]))
  {
    hide Hit, Wrap16, Ticks;
    if Ticks(list[0]) {
      var next := Hit(hp, max, list[0]);
      assert [] + EventsOf(next, max, list[1..]) == EventsOf(next, max, list[1..]);
    }
  }

  /** Folds the effects into the hit points, in the list's order. */
  method ApplyTickEffects(hpCurrent: Int32, hpMax: Int32, list: seq<Affect>) returns (newHp: Int32, events: seq<Event>)
    ensures newHp == HpAfter(hpCurrent, hpMax, list) && events == EventsOf(hpCurrent, hpMax, list)
  {
    hide Wrap32, Wrap16, EventsOf, HpAfter;
    var hp: Int32 := hpCurrent;
    events := [];
    var i := 0;
    while i < |list|
      invariant i <= |list|
      invariant HpAfter(hp, hpMax, list[i..]) == HpAfter(hpCurrent, hpMax, list)
      invariant events + EventsOf(hp, hpMax, list[i..]) == EventsOf(hpCurrent, hpMax, list)
    {
      var a := list[i];
      assert list[i..][0] == a && list[i..][1..] == list[i + 1..];
      FoldStep(hp, hpMax, list[i..]);
      i := i + 1;
      if a.effect == "" || a.damage == 0 {
        continue;
      }
      var next: Int32 := Wrap32(hp + a.damage);
      if next < 0 {
        next := 0;
      }
      if hpMax > 0 && next > hpMax {
        next := hpMax;
      }
      var applied := Wrap32(next - hp);
      if applied == 0 {
        assert next == hp;
        continue;
      }
      events := events + [Event(a.name, Wrap16(applied), next, a.effect)];
      hp := next;
    }
    assert list[i..] == [];
    FoldNothing(hp, hpMax);
    newHp := hp;
  }

  lemma FoldNothing(hp: Int32, max: Int32)
    ensures HpAfter(hp, max, []) == hp && EventsOf(hp, max, []) == []
  {
  }

  function Sum(events: seq<Event>): int {
    if events == [] then 0 else events[0].delta + Sum(events[1..])
  }

  /** No effect would carry the hit points, before the ceiling, past the largest word. */
  predicate Fits(hp: int, max: int, list: seq<Affect>)
    decreases |list|
  {
    list == []
    || if Ticks(list[0]) then hp + list[0].damage <= MAX32 && Fits(Clamped(hp + list[0].damage, max), max, list[1..])
       else Fits(hp, max, list[1..])
  }

  predicate InRange(hp: int, max: int) {
    0 <= hp && (max > 0 ==> hp <= max)
  }

  lemma HitFits(hp: Int32, max: Int32, a: Affect)
    requires InRange(hp, max) && hp + a.damage <= MAX32
    ensures Hit(hp, max, a) == Clamped(hp + a.damage, max)
    ensures InRange(Hit(hp, max, a), max)
    ensures Wrap16(Wrap32(Hit(hp, max, a) - hp)) == Hit(hp, max, a) - hp
  {
    hide Wrap32, Wrap16;
  }

  /** A heal past the largest word wraps below zero and is floored: the hit points drop to 0. */
  lemma HitWraps(hp: Int32, max: Int32, a: Affect)
    requires InRange(hp, max) && hp + a.damage > MAX32
    ensures Hit(hp, max, a) == 0
    ensures Wrap16(Wrap32(0 - hp)) > 0 - hp
  {
  }

  lemma SumCons(e: Event, events: seq<Event>)
    ensures Sum([e] + events) == e.delta + Sum(events)
  {
    assert ([e] + events)[1..] == events;
  }

  lemma EventsHead(hp: Int32, max: Int32, list: seq<Affect>)
    requires list != [] && Ticks(list[0])
    ensures var next := Hit(hp, max, list[0]); var applied := Wrap32(next - hp);
      Sum(EventsOf(hp, max, list))
      == (if applied == 0 then 0 else Wrap16(applied)) + Sum(EventsOf(next, max, list[1..]))
  {
    hide Hit, Wrap16, Wrap32;
    var next := Hit(hp, max, list[0]);
    var applied := Wrap32(next - hp);
    if applied == 0 {
      assert [] + EventsOf(next, max, list[1..]) == EventsOf(next, max, list[1..]);
    } else {
      SumCons(Event(list[0].name, Wrap16(applied), next, list[0].effect), EventsOf(next, max, list[1..]));
    }
  }

  /** The reported deltas never fall short of the real change, and meet it exactly while nothing wraps. */
  lemma {:induction false} DeltasBound(hp: Int32, max: Int32, list: seq<Affect>)
    requires InRange(hp, max)
    ensures InRange(HpAfter(hp, max, list), max)
    ensures HpAfter(hp, max, list) <= hp + Sum(EventsOf(hp, max, list))
    ensures HpAfter(hp, max, list) == hp + Sum(EventsOf(hp, max, list)) <==> Fits(hp, max, list)
    decreases |list|
  {
    hide Hit, Wrap16, Wrap32, Clamped, Ticks;
    if list != [] {
      var a := list[0];
      if !Ticks(a) {
        DeltasBound(hp, max, list[1..]);
      } else {
        var next := Hit(hp, max, a);
        EventsHead(hp, max, list);
        if hp + a.damage <= MAX32 {
          HitFits(hp, max, a);
        } else {
          HitWraps(hp, max, a);
        }
        DeltasBound(next, max, list[1..]);
      }
    }
  }

  /**
   From hit points in range a tick leaves them in range, and they are the old ones
   plus the deltas of the events, exactly when no effect carries them past the largest word.
   */
  lemma TickEffectsExactly(hp: Int32, max: Int32, list: seq<Affect>)
    requires InRange(hp, max)
    ensures InRange(HpAfter(hp, max, list), max)
    ensures HpAfter(hp, max, list) == hp + Sum(EventsOf(hp, max, list)) <==> Fits(hp, max, list)
  {
    DeltasBound(hp, max, list);
  }

  /** Each event tells a change that happened: it starts where the last one ended. */
  ghost predicate Chain(hp: int, max: int, events: seq<Event>)
    decreases |events|
  {
    events == []
    || (events[0].delta != 0 && events[0].newHp == hp + events[0].delta && InRange(events[0].newHp, max)
        && Chain(events[0].newHp, max, events[1..]))
  }

  lemma {:induction false} EventsChain(hp: Int32, max: Int32, list: seq<Affect>)
    requires InRange(hp, max) && Fits(hp, max, list)
    ensures Chain(hp, max, EventsOf(hp, max, list))
    decreases |list|
  {
    hide Hit, Wrap16, Wrap32, Clamped, Ticks, EventsOf;
    if list == [] {
      FoldNothing(hp, max);
    } else {
      FoldStep(hp, max, list);
      if !Ticks(list[0]) {
        EventsChain(hp, max, list[1..]);
      } else {
        var next := Hit(hp, max, list[0]);
        HitFits(hp, max, list[0]);
        EventsChain(next, max, list[1..]);
      }
    }
  }

  /** A ceiling at least one largest heal below the largest word is enough. */
  lemma {:induction false} LowCeilingFits(hp: int, max: int, list: seq<Affect>)
    requires 0 < max <= MAX32 - MAX16 && 0 <= hp <= max
    ensures Fits(hp, max, list)
    decreases |list|
  {
    if list != [] {
      LowCeilingFits(if Ticks(list[0]) then Clamped(hp + list[0].damage, max) else hp, max, list[1..]);
    }
  }

  /** At the largest ceiling a heal of one kills. */
  lemma HealThatKills(a: Affect)
    requires a.effect != "" && a.damage == 1
    ensures HpAfter(MAX32, MAX32, [a]) == 0
  {
    assert [a][1..] == [];
    assert HpAfter(0, MAX32, []) == 0;
  }

  /** Each event names an affect that ticks, with its effect, in the order of the list. */
  lemma {:induction false} EventComesFrom(hp: Int32, max: Int32, list: seq<Affect>, j: nat, k: nat)
    returns (p: nat, q: nat)
    requires j < k < |EventsOf(hp, max, list)|
    ensures p < q < |list| && Tells(EventsOf(hp, max, list)[j], list[p]) && Tells(EventsOf(hp, max, list)[k], list[q])
    decreases |list|
  {
    hide Hit, Wrap16, Wrap32, Ticks, Tells;
    FoldStep(hp, max, list);
    var a := list[0];
    var next: Int32 := if Ticks(a) then Hit(hp, max, a) else hp;
    if !Ticks(a) || Wrap32(next - hp) == 0 {
      p, q := EventComesFrom(next, max, list[1..], j, k);
      p, q := p + 1, q + 1;
    } else if j > 0 {
      p, q := EventComesFrom(next, max, list[1..], j - 1, k - 1);
      p, q := p + 1, q + 1;
    } else {
      FirstTells(hp, max, list);
      q := OneEventFrom(next, max, list[1..], k - 1);
      p, q := 0, q + 1;
    }
  }

  ghost predicate Tells(e: Event, a: Affect) {
    e.name == a.name && e.effect == a.effect && a.effect != "" && a.damage != 0
  }

  lemma FirstTells(hp: Int32, max: Int32, list: seq<Affect>)
    requires list != [] && Ticks(list[0]) && Wrap32(Hit(hp, max, list[0]) - hp) != 0
    ensures EventsOf(hp, max, list) != [] && Tells(EventsOf(hp, max, list)[0], list[0])
  {
    hide Hit, Wrap16, Wrap32;
  }

  lemma {:induction false} OneEventFrom(hp: Int32, max: Int32, list: seq<Affect>, k: nat) returns (q: nat)
    requires k < |EventsOf(hp, max, list)|
    ensures q < |list| && Tells(EventsOf(hp, max, list)[k], list[q])
    decreases |list|
  {
    hide Hit, Wrap16, Wrap32, Ticks, Tells;
    FoldStep(hp, max, list);
    var a := list[0];
    var next: Int32 := if Ticks(a) then Hit(hp, max, a) else hp;
    if !Ticks(a) || Wrap32(next - hp) == 0 {
      q := OneEventFrom(next, max, list[1..], k);
      q := q + 1;
    } else if k > 0 {
      q := OneEventFrom(next, max, list[1..], k - 1);
      q := q + 1;
    } else {
      FirstTells(hp, max, list);
      q := 0;
    }
  }

  /** One effect: hit points go by the damage, stop at 0 and at the ceiling, and a change is told if there is one. */
  lemma OneEffect(hp: Int32, max: Int32, a: Affect)
    requires InRange(hp, max) && hp + a.damage <= MAX32
    ensures var to := HpAfter(hp, max, [a]);
      && (a.effect == "" || a.damage == 0 ==> to == hp && EventsOf(hp, max, [a]) == [])
      && (a.effect != "" ==>
            && to == (if hp + a.damage < 0 then 0 else if 0 < max < hp + a.damage then max else hp + a.damage)
            && EventsOf(hp, max, [a]) == if to == hp then [] else [Event(a.name, to - hp, to, a.effect)])
  {
    hide Wrap32, Wrap16;
    HitFits(hp, max, a);
    FoldNothing(hp, max);
    FoldNothing(Hit(hp, max, a), max);
    assert [a][1..] == [];
    if Ticks(a) {
      FoldStep(hp, max, [a]);
    }
  }
}
