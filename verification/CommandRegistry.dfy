/**
 The command registry, a slice kept sorted by name and searched by halving beside a map of
 aliases, proved against a table that is scanned naively from front to back.
 */
module CommandRegistry {
  import Tokenizer
  import opened Basics

  /** `runnable` is whether Run is set; `body` stands for everything the registry never reads. */
  datatype Command = Command(name: string, aliases: seq<string>, runnable: bool, body: int)

  // ---- the order of names ----

  predicate Le(a: string, b: string) {
    a == "" || (b != "" && (a[0] < b[0] || (a[0] == b[0] && Le(a[1..], b[1..]))))
  }

  predicate Less(a: string, b: string) {
    Le(a, b) && a != b
  }

  lemma {:induction false} LeTotal(a: string, b: string)
    ensures Le(a, b) || Le(b, a)
    ensures Le(a, b) && Le(b, a) ==> a == b
  {
    if a != "" && b != "" {
      LeTotal(a[1..], b[1..]);
      assert a == [a[0]] + a[1..] && b == [b[0]] + b[1..];
    }
  }

  lemma {:induction false} LeTrans(a: string, b: string, c: string)
    requires Le(a, b) && Le(b, c)
    ensures Le(a, c)
  {
    if a != "" && b != "" && c != "" {
      if a[0] == b[0] == c[0] {
        LeTrans(a[1..], b[1..], c[1..]);
      }
    }
  }

  lemma LessTrans(a: string, b: string, c: string)
    requires Less(a, b) && Less(b, c)
    ensures Less(a, c)
  {
    LeTrans(a, b, c);
    LeTotal(a, b);
  }

  predicate HasPrefix(s: string, p: string) {
    p <= s
  }

  lemma {:induction false} PrefixIsLe(s: string, p: string)
    requires HasPrefix(s, p)
    ensures Le(p, s)
  {
    if p != "" {
      PrefixIsLe(s[1..], p[1..]);
    }
  }

  /** The names with one prefix stand together: what lies between p and such a name has the prefix too. */
  lemma {:induction false} PrefixBlock(p: string, a: string, b: string)
    requires Le(p, a) && Le(a, b) && HasPrefix(b, p)
    ensures HasPrefix(a, p)
  {
    if p != "" {
      assert a[0] == p[0];
      PrefixBlock(p[1..], a[1..], b[1..]);
      assert p == [p[0]] + p[1..] && a == [a[0]] + a[1..];
    }
  }

  // ---- the table ----

  datatype Table = Table(sorted: seq<Command>, aliases: map<string, Command>)

  const EMPTY_TABLE := Table([], map[])

  ghost predicate Sorted(cmds: seq<Command>) {
    forall i, j | 0 <= i < j < |cmds| :: Less(cmds[i].name, cmds[j].name)
  }

  /**
   Names strictly increase; an alias names a live command that lists it, every
   listed alias does, and no alias hides another command's name.
   */
  ghost predicate Valid(t: Table) {
    && Sorted(t.sorted)
    && (forall a | a in t.aliases :: t.aliases[a] in t.sorted && a in t.aliases[a].aliases)
    && (forall c | c in t.sorted :: Acceptable(c))
    && (forall c | c in t.sorted :: forall a | a in c.aliases :: a in t.aliases && t.aliases[a] == c)
    && (forall c | c in t.sorted :: c.name in t.aliases ==> t.aliases[c.name] == c)
  }

  predicate ValidVerb(v: string) {
    v != "" && forall c | c in v :: 0x20 < c as int < 0x7F && !('A' <= c <= 'Z')
  }

  predicate Acceptable(c: Command) {
    c.runnable && ValidVerb(c.name) && forall a | a in c.aliases :: ValidVerb(a)
  }

  /** The first command of that name, from the front. */
  function FindName(cmds: seq<Command>, name: string): Option<Command> {
    if cmds == [] then None
    else if cmds[0].name == name then Some(cmds[0])
    else FindName(cmds[1..], name)
  }

  function FindExact(t: Table, verb: string): Option<Command> {
    if verb in t.aliases then Some(t.aliases[verb]) else FindName(t.sorted, verb)
  }

  /** All commands whose name starts with p, from front to back. */
  function WithPrefix(cmds: seq<Command>, p: string): seq<Command> {
    if cmds == [] then []
    else (if HasPrefix(cmds[0].name, p) then [cmds[0]] else []) + WithPrefix(cmds[1..], p)
  }

  datatype Resolution = Resolved(cmd: Command) | Unknown | Ambiguous(matches: seq<Command>)

  /** Alias, then exact name, then unique prefix. */
  function Resolve(t: Table, verb: string): Resolution {
    if verb == "" then Unknown
    else if FindExact(t, verb).Some? then Resolved(FindExact(t, verb).value)
    else
      var matches := WithPrefix(t.sorted, verb);
      if |matches| == 0 then Unknown else if |matches| == 1 then Resolved(matches[0]) else Ambiguous(matches)
  }

  /** c goes in front of the first command whose name is not below its own. */
  function Insert(cmds: seq<Command>, c: Command): seq<Command> {
    if cmds == [] then [c]
    else if Le(c.name, cmds[0].name) then [c] + cmds
    else [cmds[0]] + Insert(cmds[1..], c)
  }

  function Without(cmds: seq<Command>, name: string): seq<Command> {
    if cmds == [] then []
    else if cmds[0].name == name then cmds[1..]
    else [cmds[0]] + Without(cmds[1..], name)
  }

  function Added(t: Table, c: Command): Table {
    Table(Insert(t.sorted, c), Leading(t.aliases, c.aliases, c))
  }

  /** The aliases with `names` leading to c. */
  function Leading(aliases: map<string, Command>, names: seq<string>, c: Command): map<string, Command> {
    aliases + map a | a in names :: c
  }

  lemma LeadingStep(aliases: map<string, Command>, names: seq<string>, k: nat, c: Command)
    requires k < |names|
    ensures Leading(aliases, names[..k + 1], c) == Leading(aliases, names[..k], c)[names[k] := c]
  {
    assert names[..k + 1] == names[..k] + [names[k]];
  }

  lemma NoneLeads(aliases: map<string, Command>, c: Command)
    ensures Leading(aliases, c.aliases[..0], c) == aliases
  {
  }

  function Removed(t: Table, c: Command): Table {
    Table(Without(t.sorted, c.name), Unowned(t.aliases, c.aliases, c))
  }

  /** The aliases without those of `names` that lead to c. */
  function Unowned(aliases: map<string, Command>, names: seq<string>, c: Command): map<string, Command> {
    map a | a in aliases && !(a in names && aliases[a] == c) :: aliases[a]
  }

  lemma UnownedStep(aliases: map<string, Command>, names: seq<string>, k: nat, c: Command)
    requires k < |names|
    ensures var before := Unowned(aliases, names[..k], c);
      Unowned(aliases, names[..k + 1], c)
      == if names[k] in before && before[names[k]] == c then before - {names[k]} else before
  {
    assert names[..k + 1] == names[..k] + [names[k]];
  }

  /** None of the words c claims is spoken for. */
  predicate Free(t: Table, c: Command) {
    FindExact(t, c.name).None? && forall a | a in c.aliases :: FindExact(t, a).None?
  }

  // ---- positions and scans ----

  /** k is the number of commands whose name is below `name`. */
  ghost predicate IsLowerBound(cmds: seq<Command>, name: string, k: nat) {
    && k <= |cmds|
    && (forall i | 0 <= i < k :: Less(cmds[i].name, name))
    && (forall i | k <= i < |cmds| :: Le(name, cmds[i].name))
  }

  lemma {:induction false} FindNameAt(cmds: seq<Command>, name: string, k: nat)
    requires Sorted(cmds) && IsLowerBound(cmds, name, k)
    ensures FindName(cmds, name) == if k < |cmds| && cmds[k].name == name then Some(cmds[k]) else None
    decreases |cmds|
  {
    if cmds != [] {
      if k > 0 {
        FindNameAt(cmds[1..], name, k - 1);
      } else if cmds[0].name != name {
        FindNameAt(cmds[1..], name, 0);
        if |cmds| > 1 && cmds[1].name == name {
          LeTotal(name, cmds[0].name);
        }
      }
    }
  }

  lemma {:induction false} InsertAt(cmds: seq<Command>, c: Command, k: nat)
    requires IsLowerBound(cmds, c.name, k)
    ensures Insert(cmds, c) == cmds[..k] + [c] + cmds[k..]
    decreases |cmds|
  {
    if cmds != [] {
      if k > 0 {
        LeTotal(c.name, cmds[0].name);
        InsertAt(cmds[1..], c, k - 1);
        assert cmds[..k] == [cmds[0]] + cmds[1..][..k - 1] && cmds[k..] == cmds[1..][k - 1..];
      }
    }
  }

  lemma {:induction false} WithoutAt(cmds: seq<Command>, name: string, k: nat)
    requires k < |cmds| && cmds[k].name == name && forall i | 0 <= i < k :: cmds[i].name != name
    ensures Without(cmds, name) == cmds[..k] + cmds[k + 1..]
    decreases |cmds|
  {
    if k > 0 {
      WithoutAt(cmds[1..], name, k - 1);
      assert cmds[..k] == [cmds[0]] + cmds[1..][..k - 1] && cmds[k + 1..] == cmds[1..][k..];
    }
  }

  lemma {:induction false} NoneWithPrefix(cmds: seq<Command>, p: string)
    requires forall i | 0 <= i < |cmds| :: !HasPrefix(cmds[i].name, p)
    ensures WithPrefix(cmds, p) == []
  {
    if cmds != [] {
      NoneWithPrefix(cmds[1..], p);
    }
  }

  lemma {:induction false} WithPrefixAppend(a: seq<Command>, b: seq<Command>, p: string)
    ensures WithPrefix(a + b, p) == WithPrefix(a, p) + WithPrefix(b, p)
  {
    hide HasPrefix;
    if a == [] {
      assert a + b == b;
    } else {
      assert (a + b)[1..] == a[1..] + b && (a + b)[0] == a[0];
      WithPrefixAppend(a[1..], b, p);
      var head, x, y := if HasPrefix(a[0].name, p) then [a[0]] else [], WithPrefix(a[1..], p), WithPrefix(b, p);
      assert (head + x) + y == head + (x + y);
    }
  }

  lemma {:induction false} AllWithPrefix(cmds: seq<Command>, p: string)
    requires forall i | 0 <= i < |cmds| :: HasPrefix(cmds[i].name, p)
    ensures WithPrefix(cmds, p) == cmds
  {
    if cmds != [] {
      AllWithPrefix(cmds[1..], p);
    }
  }

  /** The names with prefix p are one block that starts at p's lower bound. */
  lemma PrefixIsBlock(cmds: seq<Command>, p: string, lo: nat, hi: nat)
    requires Sorted(cmds) && IsLowerBound(cmds, p, lo) && lo <= hi <= |cmds|
    requires forall i | lo <= i < hi :: HasPrefix(cmds[i].name, p)
    requires hi < |cmds| ==> !HasPrefix(cmds[hi].name, p)
    ensures WithPrefix(cmds, p) == cmds[lo..hi]
  {
    hide Le, HasPrefix, WithPrefix;
    var before, block, after := cmds[..lo], cmds[lo..hi], cmds[hi..];
    BelowHasNoPrefix(cmds, p, lo);
    BeyondHasNoPrefix(cmds, p, lo, hi);
    assert cmds == before + block + after;
    WithPrefixAppend(before + block, after, p);
    WithPrefixAppend(before, block, p);
    NoneWithPrefix(before, p);
    AllWithPrefix(block, p);
    NoneWithPrefix(after, p);
    assert WithPrefix(before, p) + block + WithPrefix(after, p) == block;
  }

  lemma BelowHasNoPrefix(cmds: seq<Command>, p: string, lo: nat)
    requires IsLowerBound(cmds, p, lo)
    ensures forall i | 0 <= i < lo :: !HasPrefix(cmds[i].name, p)
  {
    hide HasPrefix;
    forall i | 0 <= i < lo
      ensures !HasPrefix(cmds[i].name, p)
    {
      LeTotal(p, cmds[i].name);
      if HasPrefix(cmds[i].name, p) {
        PrefixIsLe(cmds[i].name, p);
      }
    }
  }

  lemma BeyondHasNoPrefix(cmds: seq<Command>, p: string, lo: nat, hi: nat)
    requires Sorted(cmds) && IsLowerBound(cmds, p, lo) && lo <= hi <= |cmds|
    requires hi < |cmds| ==> !HasPrefix(cmds[hi].name, p)
    ensures forall i | hi <= i < |cmds| :: !HasPrefix(cmds[i].name, p)
  {
    hide HasPrefix;
    forall i | hi <= i < |cmds|
      ensures !HasPrefix(cmds[i].name, p)
    {
      if i > hi && HasPrefix(cmds[i].name, p) {
        PrefixBlock(p, cmds[hi].name, cmds[i].name);
      }
    }
  }

  // ---- validity ----

  lemma FoundIsMember(cmds: seq<Command>, c: Command)
    requires Sorted(cmds) && c in cmds
    ensures FindName(cmds, c.name) == Some(c)
  {
    var k :| 0 <= k < |cmds| && cmds[k] == c;
    LeSelf(c.name);
    assert IsLowerBound(cmds, c.name, k);
    FindNameAt(cmds, c.name, k);
  }

  lemma {:induction false} LeSelf(a: string)
    ensures Le(a, a)
  {
    if a != "" {
      LeSelf(a[1..]);
    }
  }

  lemma {:induction false} FoundHasName(cmds: seq<Command>, name: string)
    ensures FindName(cmds, name).Some? ==> FindName(cmds, name).value in cmds && FindName(cmds, name).value.name == name
    ensures FindName(cmds, name).None? ==> forall c | c in cmds :: c.name != name
  {
    if cmds != [] {
      FoundHasName(cmds[1..], name);
    }
  }

  lemma {:induction false} InsertMembers(cmds: seq<Command>, c: Command)
    ensures forall x :: x in Insert(cmds, c) <==> x == c || x in cmds
  {
    if cmds != [] && !Le(c.name, cmds[0].name) {
      InsertMembers(cmds[1..], c);
    }
  }

  lemma {:induction false} InsertSorted(cmds: seq<Command>, c: Command)
    requires Sorted(cmds) && forall x | x in cmds :: x.name != c.name
    ensures Sorted(Insert(cmds, c))
  {
    if cmds != [] {
      if Le(c.name, cmds[0].name) {
        forall i | 0 <= i < |cmds|
          ensures Less(c.name, cmds[i].name)
        {
          assert cmds[i] in cmds;
          if i > 0 {
            LeTrans(c.name, cmds[0].name, cmds[i].name);
          }
        }
      } else {
        InsertSorted(cmds[1..], c);
        InsertMembers(cmds[1..], c);
        LeTotal(c.name, cmds[0].name);
        var rest := Insert(cmds[1..], c);
        forall i | 0 <= i < |rest|
          ensures Less(cmds[0].name, rest[i].name)
        {
          assert rest[i] in rest;
          if rest[i] != c {
            var j :| 0 <= j < |cmds[1..]| && cmds[1..][j] == rest[i];
            assert cmds[j + 1] == rest[i];
          }
        }
      }
    }
  }

  lemma AddedValid(t: Table, c: Command)
    requires Valid(t) && Acceptable(c) && Free(t, c)
    ensures Valid(Added(t, c))
  {
    FoundHasName(t.sorted, c.name);
    InsertSorted(t.sorted, c);
    InsertMembers(t.sorted, c);
    var u := Added(t, c);
    forall x | x in u.sorted && x.name in u.aliases
      ensures u.aliases[x.name] == x
    {
      if x != c && x.name in c.aliases {
        FoundIsMember(t.sorted, x);
      }
    }
  }

  lemma WithoutMembers(cmds: seq<Command>, c: Command)
    requires Sorted(cmds) && c in cmds
    ensures forall x :: x in Without(cmds, c.name) <==> x in cmds && x != c
    ensures Sorted(Without(cmds, c.name))
  {
    var k :| 0 <= k < |cmds| && cmds[k] == c;
    WithoutAt(cmds, c.name, k);
  }

  lemma ValidFacts(t: Table)
    requires Valid(t)
    ensures Sorted(t.sorted)
    ensures FindName(t.sorted, "").None?
  {
    FoundHasName(t.sorted, "");
  }

  lemma NoNames(aliases: map<string, Command>, c: Command)
    ensures Unowned(aliases, c.aliases[..0], c) == aliases
  {
  }

  lemma RemovedValid(t: Table, c: Command)
    requires Valid(t) && c in t.sorted
    ensures Valid(Removed(t, c))
  {
    WithoutMembers(t.sorted, c);
  }

  /** Registering a command and taking it out again leaves the registry as it was. */
  lemma AddThenRemove(t: Table, c: Command)
    requires Valid(t) && Acceptable(c) && Free(t, c)
    ensures Removed(Added(t, c), c) == t
  {
    hide Insert, Without, Le, FindName;
    WithoutInserted(t.sorted, c);
  }

  lemma {:induction false} WithoutInserted(cmds: seq<Command>, c: Command)
    requires FindName(cmds, c.name).None?
    ensures Without(Insert(cmds, c), c.name) == cmds
  {
    if cmds != [] {
      if Le(c.name, cmds[0].name) {
        assert ([c] + cmds)[1..] == cmds;
      } else {
        WithoutInserted(cmds[1..], c);
        assert Insert(cmds, c)[1..] == Insert(cmds[1..], c);
      }
    }
  }

  // ---- runs ----

  datatype Change = Add(cmd: Command) | Remove(name: string)

  function Apply(t: Table, change: Change): Table {
    match change
    case Add(c) => if CanAdd(t, c) then Added(t, c) else t
    case Remove(name) =>
      var found := FindName(t.sorted, name);
      if found.Some? then Removed(t, found.value) else t
  }

  predicate CanAdd(t: Table, c: Command) {
    Acceptable(c) && Free(t, c)
  }

  function Run(t: Table, changes: seq<Change>): Table
    decreases |changes|
  {
    if changes == [] then t else Run(Apply(t, changes[0]), changes[1..])
  }

  /** Every registry reached by registering and unregistering is in order. */
  lemma {:induction false} RunValid(t: Table, changes: seq<Change>)
    requires Valid(t)
    ensures Valid(Run(t, changes))
    decreases |changes|
  {
    hide Valid, Removed, Added;
    if changes != [] {
      var change := changes[0];
      match change {
        case Add(c) =>
          if CanAdd(t, c) {
            AddedValid(t, c);
          }
        case Remove(name) =>
          FoundHasName(t.sorted, name);
          if FindName(t.sorted, name).Some? {
            RemovedValid(t, FindName(t.sorted, name).value);
          }
      }
      RunValid(Apply(t, change), changes[1..]);
    }
  }

  function LowerChar(c: char): char {
    if 'A' <= c <= 'Z' then c + 32 as char else c
  }

  function ToLower(s: string): string {
    if s == "" then "" else [LowerChar(s[0])] + ToLower(s[1..])
  }

  /** The first index whose name is not below `name`, by halving. */
  method Search(cmds: seq<Command>, name: string) returns (idx: nat)
    requires Sorted(cmds)
    ensures IsLowerBound(cmds, name, idx)
  {
    var i, j := 0, |cmds|;
    while i < j
      invariant i <= j <= |cmds|
      invariant forall k | 0 <= k < i :: Less(cmds[k].name, name)
      invariant forall k | j <= k < |cmds| :: Le(name, cmds[k].name)
    {
      var h := (i + j) / 2;
      LeTotal(name, cmds[h].name);
      if !Le(name, cmds[h].name) {
        forall k | 0 <= k < h + 1
          ensures Less(cmds[k].name, name)
        {
          if k < h {
            LessTrans(cmds[k].name, cmds[h].name, name);
          } else {
            LeSelf(name);
          }
        }
        i := h + 1;
      } else {
        forall k | h <= k < |cmds|
          ensures Le(name, cmds[k].name)
        {
          if k > h {
            LeTrans(name, cmds[h].name, cmds[k].name);
          }
        }
        j := h;
      }
    }
    idx := i;
  }

  // ---- what a registry answers ----

  /** The word is a name or an alias of the command. */
  predicate Claims(c: Command, word: string) {
    c.name == word || word in c.aliases
  }

  lemma ClaimedIsFound(t: Table, word: string)
    requires Valid(t)
    ensures FindExact(t, word).Some? ==> FindExact(t, word).value in t.sorted && Claims(FindExact(t, word).value, word)
    ensures forall c | c in t.sorted && Claims(c, word) :: FindExact(t, word) == Some(c)
  {
    hide FindName, Less;
    FoundHasName(t.sorted, word);
    forall c | c in t.sorted && Claims(c, word)
      ensures FindExact(t, word) == Some(c)
    {
      if c.name == word {
        FoundIsMember(t.sorted, c);
      }
    }
  }

  /** A registered command is found under each of its words; every other word finds what it found before. */
  lemma AddedFinds(t: Table, c: Command, word: string)
    requires Valid(t) && CanAdd(t, c)
    ensures FindExact(Added(t, c), word) == if Claims(c, word) then Some(c) else FindExact(t, word)
  {
    hide FindName, FindExact, Valid, Sorted, Insert, ValidVerb;
    AddedValid(t, c);
    InsertMembers(t.sorted, c);
    ClaimedIsFound(t, word);
    ClaimedIsFound(Added(t, c), word);
    if !Claims(c, word) && FindExact(t, word).Some? {
      assert FindExact(t, word).value in Added(t, c).sorted;
    }
  }

  /** A command taken out is found under none of its words; every other word finds what it found before. */
  lemma RemovedFinds(t: Table, c: Command, word: string)
    requires Valid(t) && c in t.sorted
    ensures FindExact(Removed(t, c), word) == if Claims(c, word) then None else FindExact(t, word)
  {
    hide FindName, FindExact, Valid, Without, ValidVerb;
    ValidFacts(t);
    RemovedValid(t, c);
    WithoutMembers(t.sorted, c);
    ClaimedIsFound(t, word);
    ClaimedIsFound(Removed(t, c), word);
  }

  lemma {:induction false} WithPrefixIs(cmds: seq<Command>, p: string)
    ensures forall c :: c in WithPrefix(cmds, p) <==> c in cmds && p <= c.name
    ensures Sorted(cmds) ==> Sorted(WithPrefix(cmds, p))
  {
    hide Less;
    if cmds != [] {
      WithPrefixIs(cmds[1..], p);
      if Sorted(cmds) {
        forall c | c in WithPrefix(cmds[1..], p)
          ensures Less(cmds[0].name, c.name)
        {
          var k :| 0 <= k < |cmds[1..]| && cmds[1..][k] == c;
          assert cmds[k + 1] == c;
        }
      }
    }
  }

  /**
   A word of a command is that command. Any other word is the one command whose name it
   starts, if there is one; several are told, all of them and in order, and never resolved to one.
   */
  lemma ResolveExactly(t: Table, verb: string)
    requires Valid(t)
    ensures verb == "" ==> Resolve(t, verb) == Unknown
    ensures verb != "" ==> forall c | c in t.sorted && Claims(c, verb) :: Resolve(t, verb) == Resolved(c)
    ensures var r := Resolve(t, verb);
      verb != "" && (forall c | c in t.sorted :: !Claims(c, verb)) ==>
        && (r.Unknown? <==> forall c | c in t.sorted :: !(verb <= c.name))
        && (forall c :: r == Resolved(c) <==>
              c in t.sorted && verb <= c.name && forall d | d in t.sorted && verb <= d.name :: d == c)
        && (r.Ambiguous? ==> |r.matches| >= 2 && Sorted(r.matches))
        && (r.Ambiguous? ==> forall c :: c in r.matches <==> c in t.sorted && verb <= c.name)
  {
    hide FindName, FindExact, Valid, WithPrefix, Claims;
    ValidFacts(t);
    ClaimedIsFound(t, verb);
    WithPrefixIs(t.sorted, verb);
    var ms := WithPrefix(t.sorted, verb);
    if |ms| == 1 {
      assert ms[0] in ms;
    } else if |ms| > 1 {
      assert ms[0] in ms && ms[1] in ms && ms[0] != ms[1];
    }
  }

  lemma {:induction false} ToLowerIs(s: string)
    ensures |ToLower(s)| == |s|
    ensures forall i | 0 <= i < |s| ::
              ToLower(s)[i] == if 'A' <= s[i] <= 'Z' then (s[i] as int + 32) as char else s[i]
  {
    if s != "" {
      ToLowerIs(s[1..]);
    }
  }

  /** A word fit for a registry is printable ASCII without a blank that lower-casing leaves alone. */
  lemma ValidVerbIs(v: string)
    ensures ValidVerb(v) <==>
      v != "" && ToLower(v) == v && forall i | 0 <= i < |v| :: 0x20 < v[i] as int < 0x7F
  {
    ToLowerIs(v);
    if ToLower(v) == v && v != "" && forall i | 0 <= i < |v| :: 0x20 < v[i] as int < 0x7F {
      forall c | c in v
        ensures !('A' <= c <= 'Z')
      {
        var i :| 0 <= i < |v| && v[i] == c;
        assert ToLower(v)[i] == v[i];
      }
    }
    if ValidVerb(v) {
      assert forall i | 0 <= i < |v| :: v[i] in v;
      assert forall i | 0 <= i < |v| :: ToLower(v)[i] == v[i];
    }
  }

  datatype Registered = Done | InvalidCommand | DuplicateCommand

  class Registry {
    var sorted: seq<Command>
    var aliases: map<string, Command>

    ghost function State(): Table
      reads this
    {
      Table(sorted, aliases)
    }

    constructor ()
      ensures State() == EMPTY_TABLE && Valid(State())
    {
      sorted, aliases := [], map[];
    }

    method LookupExactLocked(verb: string) returns (r: Option<Command>)
      requires Valid(State())
      ensures r == FindExact(State(), verb)
    {
      if verb in aliases {
        return Some(aliases[verb]);
      }
      var idx := Search(sorted, verb);
      FindNameAt(sorted, verb, idx);
      if idx < |sorted| && sorted[idx].name == verb {
        return Some(sorted[idx]);
      }
      r := None;
    }

    /** The checks before anything is changed: the words first, then that none is taken. */
    method Check(c: Command) returns (r: Registered)
      requires Valid(State())
      ensures r.Done? <==> CanAdd(State(), c)
      ensures r.InvalidCommand? <==> !Acceptable(c)
    {
      hide Valid, FindExact, ValidVerb;
      if !c.runnable || !ValidVerb(c.name) {
        return InvalidCommand;
      }
      var i := 0;
      while i < |c.aliases|
        invariant i <= |c.aliases|
        invariant forall k | 0 <= k < i :: ValidVerb(c.aliases[k])
      {
        if !ValidVerb(c.aliases[i]) {
          assert c.aliases[i] in c.aliases;
          return InvalidCommand;
        }
        i := i + 1;
      }
      var taken := LookupExactLocked(c.name);
      if taken.Some? {
        return DuplicateCommand;
      }
      i := 0;
      while i < |c.aliases|
        invariant i <= |c.aliases|
        invariant forall k | 0 <= k < i :: FindExact(State(), c.aliases[k]).None?
      {
        taken := LookupExactLocked(c.aliases[i]);
        if taken.Some? {
          assert c.aliases[i] in c.aliases;
          return DuplicateCommand;
        }
        i := i + 1;
      }
      r := Done;
    }

    /** Refused commands change nothing; an accepted one is added to the table. */
    method Register(c: Command) returns (r: Registered)
      requires Valid(State())
      modifies this
      ensures Valid(State())
      ensures r.Done? <==> CanAdd(old(State()), c)
      ensures r.InvalidCommand? <==> !Acceptable(c)
      ensures State() == Apply(old(State()), Add(c))
    {
      hide Valid, Sorted, Insert, FindExact, Acceptable, Less, Le, Leading, FindName, Removed;
      ValidFacts(State());
      r := Check(c);
      if !r.Done? {
        return;
      }
      var idx := Search(sorted, c.name);
      InsertAt(sorted, c, idx);
      AddedValid(State(), c);
      sorted := sorted[..idx] + [c] + sorted[idx..];
      var i := 0;
      NoneLeads(aliases, c);
      while i < |c.aliases|
        invariant i <= |c.aliases| && sorted == Insert(old(sorted), c)
        invariant aliases == Leading(old(aliases), c.aliases[..i], c)
      {
        LeadingStep(old(aliases), c.aliases, i, c);
        aliases := aliases[c.aliases[i] := c];
        i := i + 1;
      }
      assert c.aliases[..i] == c.aliases;
    }

    /** Takes out the command of that exact name and every alias that leads to it. */
    method Unregister(rawName: string) returns (found: bool)
      requires Valid(State())
      modifies this
      ensures Valid(State())
      ensures var name := ToLower(Tokenizer.Trim(rawName));
        && found == FindName(old(State()).sorted, name).Some?
        && State() == Apply(old(State()), Remove(name))
    {
      hide Valid, Unowned, Without;
      var name := ToLower(Tokenizer.Trim(rawName));
      FoundHasName(sorted, name);
      ValidFacts(State());
      if name == "" {
        return false;
      }
      var idx := Search(sorted, name);
      FindNameAt(sorted, name, idx);
      if idx >= |sorted| || sorted[idx].name != name {
        return false;
      }
      var cmd := sorted[idx];
      WithoutAt(sorted, name, idx);
      RemovedValid(State(), cmd);
      NoNames(aliases, cmd);
      sorted := sorted[..idx] + sorted[idx + 1..];
      var i := 0;
      while i < |cmd.aliases|
        invariant i <= |cmd.aliases| && sorted == Without(old(sorted), name)
        invariant aliases == Unowned(old(aliases), cmd.aliases[..i], cmd)
      {
        var a := cmd.aliases[i];
        UnownedStep(old(aliases), cmd.aliases, i, cmd);
        if a in aliases && aliases[a] == cmd {
          aliases := aliases - {a};
        }
        i := i + 1;
      }
      assert cmd.aliases[..i] == cmd.aliases;
      found := true;
    }

    method PrefixLocked(p: string) returns (out: seq<Command>)
      requires Valid(State())
      ensures out == WithPrefix(sorted, p)
    {
      if p == "" {
        AllWithPrefix(sorted, p);
        return sorted;
      }
      var start := Search(sorted, p);
      out := [];
      var i := start;
      while i < |sorted|
        invariant start <= i <= |sorted|
        invariant out == sorted[start..i]
        invariant forall k | start <= k < i :: HasPrefix(sorted[k].name, p)
      {
        if !HasPrefix(sorted[i].name, p) {
          break;
        }
        out := out + [sorted[i]];
        i := i + 1;
      }
      PrefixIsBlock(sorted, p, start, i);
    }

    /** Halving, alias map and prefix scan together resolve a verb as the naive scan does. */
    method Lookup(rawVerb: string) returns (r: Resolution)
      requires Valid(State())
      ensures r == Resolve(State(), ToLower(rawVerb))
    {
      var verb := ToLower(rawVerb);
      if verb == "" {
        return Unknown;
      }
      var exact := LookupExactLocked(verb);
      if exact.Some? {
        return Resolved(exact.value);
      }
      var matches := PrefixLocked(verb);
      if |matches| == 0 {
        r := Unknown;
      } else if |matches| == 1 {
        r := Resolved(matches[0]);
      } else {
        r := Ambiguous(matches);
      }
    }
  }
}
