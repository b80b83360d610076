/** Coin and item transfers as commands run interleaved: each store call is one step and may fail without effect. */
module CoinLedger {
  import opened Basics

  const MAX_INT64: int := 0x7FFF_FFFF_FFFF_FFFF
  const MIN_INT64: int := -0x8000_0000_0000_0000

  // ---- currency arithmetic ----

  function InRange(v: int): Option<int> {
    if MIN_INT64 <= v <= MAX_INT64 then Some(v) else None
  }

  function Add(a: int, b: int): Option<int> {
    InRange(a + b)
  }

  function Sub(a: int, b: int): Option<int> {
    if b >= 0 && b > a then None else InRange(a - b)
  }

  // ---- the stores ----

  /** A character row: purse, account and the version that every write of them bumps. */
  datatype Purse = Purse(coin: int, bank: int, version: nat)

  /** An item row; a coin pile is worth its value while the row exists. */
  datatype Item = Item(live: bool, pile: bool, value: int)

  /** Conditional write: it happens only at the expected version. */
  function RecordCoin(purses: seq<Purse>, id: nat, coin: int, bank: int, expected: nat): Option<seq<Purse>> {
    if id < |purses| && purses[id].version == expected
    then Some(purses[id := Purse(coin, bank, expected + 1)])
    else None
  }

  function Delete(items: seq<Item>, id: nat): Option<seq<Item>> {
    if id < |items| && items[id].live then Some(items[id := items[id].(live := false)]) else None
  }

  // ---- the commands ----

  datatype Op =
    | Give(actor: nat, target: nat, amount: int)
    | Drop(actor: nat, amount: int)
    | TakePile(actor: nat, item: nat)
    | Deposit(actor: nat, amount: int)
    | Withdraw(actor: nat, amount: int)
    | Sell(actor: nat, item: nat, price: int)

  datatype Outcome = Refused | Completed | RolledBack | RollbackFailed

  /** Where a command stands; mine and theirs are the rows it read, amount what it moves. */
  datatype Phase =
    | ReadActor
    | ReadTarget(mine: Purse)
    | Prepared(mine: Purse, theirs: Purse, amount: int)
    | Between(mine: Purse, theirs: Purse, amount: int)
    | Undo(mine: Purse, amount: int)
    | Done(outcome: Outcome, amount: int)

  datatype Thread = Thread(op: Op, phase: Phase)

  datatype World = World(purses: seq<Purse>, items: seq<Item>, threads: seq<Thread>)

  /** What the first write adds to the actor's purse and account. */
  function CoinDelta(op: Op, amount: int): int {
    match op
    case Give(_, _, _) => -amount
    case Drop(_, _) => -amount
    case TakePile(_, _) => amount
    case Deposit(_, _) => -amount
    case Withdraw(_, _) => amount
    case Sell(_, _, _) => amount
  }

  function BankDelta(op: Op, amount: int): int {
    match op
    case Deposit(_, _) => amount
    case Withdraw(_, _) => -amount
    case _ => 0
  }

  predicate HasSecondWrite(op: Op) {
    !op.Deposit? && !op.Withdraw?
  }

  /** The checks between reading and writing: the amount moved, or None for a refusal. */
  function Prepare(w: World, op: Op, mine: Purse, theirs: Purse): Option<int> {
    match op
    case Give(_, _, amount) =>
      if amount > 0 && Sub(mine.coin, amount).Some? && Add(theirs.coin, amount).Some? then Some(amount) else None
    case Drop(_, amount) =>
      if amount > 0 && Sub(mine.coin, amount).Some? then Some(amount) else None
    case TakePile(_, item) =>
      if item < |w.items| && w.items[item].pile && Add(mine.coin, w.items[item].value).Some?
      then Some(w.items[item].value) else None
    case Deposit(_, amount) =>
      if amount > 0 && Sub(mine.coin, amount).Some? && Add(mine.bank, amount).Some? then Some(amount) else None
    case Withdraw(_, amount) =>
      if amount > 0 && Sub(mine.bank, amount).Some? && Add(mine.coin, amount).Some? then Some(amount) else None
    case Sell(_, item, price) =>
      if item < |w.items| && !w.items[item].pile && Add(mine.coin, price).Some? then Some(price) else None
  }

  function Refuse(): Phase {
    Done(Refused, 0)
  }

  function AfterReads(w: World, op: Op, mine: Purse, theirs: Purse): Phase {
    match Prepare(w, op, mine, theirs)
    case None => Refuse()
    case Some(amount) => Prepared(mine, theirs, amount)
  }

  function SetPhase(w: World, i: nat, phase: Phase): World
    requires i < |w.threads|
  {
    w.(threads := w.threads[i := w.threads[i].(phase := phase)])
  }

  /** The second write: credit the target, create the pile, or delete the item. */
  function SecondWrite(w: World, op: Op, theirs: Purse, amount: int): Option<World> {
    match op
    case Give(_, target, _) =>
      var r := RecordCoin(w.purses, target, theirs.coin + amount, theirs.bank, theirs.version);
      if r.Some? then Some(w.(purses := r.value)) else None
    case Drop(_, _) => Some(w.(items := w.items + [Item(true, true, amount)]))
    case TakePile(_, item) =>
      var r := Delete(w.items, item);
      if r.Some? then Some(w.(items := r.value)) else None
    case Sell(_, item, _) =>
      var r := Delete(w.items, item);
      if r.Some? then Some(w.(items := r.value)) else None
    case _ => None
  }

  /** Command i makes its next repository call; `fails` says the call returns an error of its own. */
  function Step(w: World, i: nat, fails: bool): (w': World)
    requires i < |w.threads|
    ensures |w'.threads| == |w.threads| && w'.threads[i].op == w.threads[i].op
    ensures |w'.purses| == |w.purses|
  {
    var op := w.threads[i].op;
    match w.threads[i].phase
    case ReadActor =>
      if fails || op.actor >= |w.purses| then SetPhase(w, i, Refuse())
      else
        var mine := w.purses[op.actor];
        SetPhase(w, i, if op.Give? then ReadTarget(mine) else AfterReads(w, op, mine, mine))
    case ReadTarget(mine) =>
      if fails || !op.Give? || op.target >= |w.purses| then SetPhase(w, i, Refuse())
      else SetPhase(w, i, AfterReads(w, op, mine, w.purses[op.target]))
    case Prepared(mine, theirs, amount) =>
      var r := RecordCoin(w.purses, op.actor, mine.coin + CoinDelta(op, amount),
                          mine.bank + BankDelta(op, amount), mine.version);
      if fails || r.None? then SetPhase(w, i, Refuse())
      else
        SetPhase(w.(purses := r.value), i,
                 if HasSecondWrite(op) then Between(mine, theirs, amount) else Done(Completed, amount))
    case Between(mine, theirs, amount) =>
      var r := SecondWrite(w, op, theirs, amount);
      if fails || r.None? then SetPhase(w, i, Undo(mine, amount))
      else SetPhase(r.value, i, Done(Completed, amount))
    case Undo(mine, amount) =>
      var r := RecordCoin(w.purses, op.actor, mine.coin, mine.bank, mine.version + 1);
      if fails || r.None? then SetPhase(w, i, Done(RollbackFailed, amount))
      else SetPhase(w.(purses := r.value), i, Done(RolledBack, amount))
    case Done(_, _) => w
  }

  /** A schedule: which command moves, and whether its call fails. */
  datatype Turn = Turn(thread: nat, fails: bool)

  function Run(w: World, turns: seq<Turn>): (w': World)
    decreases |turns|
  {
    if turns == [] then w
    else Run(if turns[0].thread < |w.threads| then Step(w, turns[0].thread, turns[0].fails) else w, turns[1..])
  }

  // ---- sums ----

  function Sum<T>(s: seq<T>, f: T -> int): int {
    if s == [] then 0 else f(s[0]) + Sum(s[1..], f)
  }

  lemma {:induction false} SumUpdate<T(!new)>(s: seq<T>, i: nat, x: T, f: T -> int)
    requires i < |s|
    ensures Sum(s[i := x], f) == Sum(s, f) - f(s[i]) + f(x)
  {
    if i == 0 {
      assert s[i := x][1..] == s[1..];
    } else {
      assert s[i := x][1..] == s[1..][i - 1 := x];
      SumUpdate(s[1..], i - 1, x, f);
    }
  }

  lemma {:induction false} SumAppend<T(!new)>(s: seq<T>, x: T, f: T -> int)
    ensures Sum(s + [x], f) == Sum(s, f) + f(x)
  {
    if s == [] {
      assert s + [x] == [x];
    } else {
      assert (s + [x])[1..] == s[1..] + [x];
      SumAppend(s[1..], x, f);
    }
  }

  // ---- what a command has done so far ----

  /** The actor has been written and not restored. */
  predicate Applied(t: Thread) {
    t.phase.Between? || t.phase.Undo?
    || (t.phase.Done? && (t.phase.outcome.Completed? || t.phase.outcome.RollbackFailed?))
  }

  predicate IsCompleted(t: Thread) {
    t.phase.Done? && t.phase.outcome.Completed?
  }

  /** What command t has added to the purse of character c, all its writes together. */
  function CoinNet(t: Thread, c: nat): int {
    (if Applied(t) && t.op.actor == c then CoinDelta(t.op, t.phase.amount) else 0)
    + (if IsCompleted(t) && t.op.Give? && t.op.target == c then t.phase.amount else 0)
  }

  function BankNet(t: Thread, c: nat): int {
    if Applied(t) && t.op.actor == c then BankDelta(t.op, t.phase.amount) else 0
  }

  /** Command t is the one that deleted item k. */
  predicate Deleted(t: Thread, k: nat) {
    IsCompleted(t) && (t.op.TakePile? || t.op.Sell?) && t.op.item == k
  }

  /**
   The coin command t accounts for outside the stores: in flight between its two
   writes, paid by the shop on a completed sale, lost or duplicated for good
   after a failed rollback.
   */
  function Ledger(t: Thread): int {
    if Applied(t) && HasSecondWrite(t.op) && (!IsCompleted(t) || t.op.Sell?)
    then -CoinDelta(t.op, t.phase.amount) else 0
  }

  function Holdings(p: Purse): int {
    p.coin + p.bank
  }

  function Worth(it: Item): int {
    if it.live && it.pile then it.value else 0
  }

  function CoinNetOf(c: nat): Thread -> int {
    (t: Thread) => CoinNet(t, c)
  }

  function BankNetOf(c: nat): Thread -> int {
    (t: Thread) => BankNet(t, c)
  }

  function DeletedOf(k: nat): Thread -> int {
    (t: Thread) => if Deleted(t, k) then 1 else 0
  }

  /** Everything: purses, accounts, piles on the floor and coin in flight. */
  function Total(w: World): int {
    Sum(w.purses, Holdings) + Sum(w.items, Worth) + Sum(w.threads, Ledger)
  }

  // ---- why a compare-and-swap write is a pure delta ----

  /** A row that was read: it is the current row unless the version has moved on. */
  ghost predicate Fresh(purses: seq<Purse>, id: nat, read: Purse) {
    && id < |purses|
    && read.version <= purses[id].version
    && (read.version == purses[id].version ==> purses[id] == read)
  }

  /** The row as the first write left it. */
  function Written(op: Op, mine: Purse, amount: int): Purse {
    Purse(mine.coin + CoinDelta(op, amount), mine.bank + BankDelta(op, amount), mine.version + 1)
  }

  ghost predicate ItemKnown(items: seq<Item>, op: Op, amount: int) {
    && (op.TakePile? ==> op.item < |items| && items[op.item].pile && items[op.item].value == amount)
    && (op.Sell? ==> op.item < |items| && !items[op.item].pile && amount == op.price)
  }

  ghost predicate ThreadOk(purses: seq<Purse>, items: seq<Item>, t: Thread) {
    match t.phase
    case ReadActor => true
    case ReadTarget(mine) => Fresh(purses, t.op.actor, mine)
    case Prepared(mine, theirs, amount) =>
      && Fresh(purses, t.op.actor, mine)
      && (t.op.Give? ==> Fresh(purses, t.op.target, theirs))
      && ItemKnown(items, t.op, amount)
    case Between(mine, theirs, amount) =>
      && HasSecondWrite(t.op)
      && Fresh(purses, t.op.actor, Written(t.op, mine, amount))
      && (t.op.Give? ==> Fresh(purses, t.op.target, theirs))
      && ItemKnown(items, t.op, amount)
    case Undo(mine, amount) =>
      && HasSecondWrite(t.op)
      && Fresh(purses, t.op.actor, Written(t.op, mine, amount))
      && ItemKnown(items, t.op, amount)
    case Done(outcome, amount) =>
      && (outcome.RollbackFailed? ==> HasSecondWrite(t.op))
      && (!outcome.Refused? ==> ItemKnown(items, t.op, amount))
  }

  ghost predicate Inv(w: World) {
    forall i | 0 <= i < |w.threads| :: ThreadOk(w.purses, w.items, w.threads[i])
  }

  /** No row goes back: versions only grow, and a version never names two contents. */
  ghost predicate Grows(p: seq<Purse>, p': seq<Purse>) {
    && |p'| == |p|
    && forall c | 0 <= c < |p| :: p'[c] == p[c] || p'[c].version > p[c].version
  }

  ghost predicate ItemsKept(a: seq<Item>, a': seq<Item>) {
    |a| <= |a'| && forall k | 0 <= k < |a| :: a'[k].pile == a[k].pile && a'[k].value == a[k].value
  }

  lemma StepGrows(w: World, i: nat, fails: bool)
    requires i < |w.threads|
    ensures Grows(w.purses, Step(w, i, fails).purses)
    ensures ItemsKept(w.items, Step(w, i, fails).items)
  {
  }

  lemma StepOwnThread(w: World, i: nat, fails: bool)
    requires i < |w.threads| && Inv(w)
    ensures var w' := Step(w, i, fails); ThreadOk(w'.purses, w'.items, w'.threads[i])
  {
    var t := w.threads[i];
    assert ThreadOk(w.purses, w.items, t);
    if t.phase.Between? {
      BetweenOk(w, i, fails);
    } else if t.phase.ReadActor? || t.phase.ReadTarget? {
      ReadOk(w, i, fails);
    } else {
      hide Prepare;
    }
  }

  lemma BetweenOk(w: World, i: nat, fails: bool)
    requires i < |w.threads| && ThreadOk(w.purses, w.items, w.threads[i]) && w.threads[i].phase.Between?
    ensures var w' := Step(w, i, fails); ThreadOk(w'.purses, w'.items, w'.threads[i])
  {
    hide Prepare;
  }

  lemma ReadOk(w: World, i: nat, fails: bool)
    requires i < |w.threads| && ThreadOk(w.purses, w.items, w.threads[i])
    requires w.threads[i].phase.ReadActor? || w.threads[i].phase.ReadTarget?
    ensures var w' := Step(w, i, fails); ThreadOk(w'.purses, w'.items, w'.threads[i])
  {
    hide SecondWrite, RecordCoin;
  }

  lemma StepInv(w: World, i: nat, fails: bool)
    requires i < |w.threads| && Inv(w)
    ensures Inv(Step(w, i, fails))
  {
    var w' := Step(w, i, fails);
    StepGrows(w, i, fails);
    StepOwnThread(w, i, fails);
    forall j | 0 <= j < |w'.threads|
      ensures ThreadOk(w'.purses, w'.items, w'.threads[j])
    {
      if j != i {
        assert w'.threads[j] == w.threads[j];
        assert ThreadOk(w'.purses, w'.items, w.threads[j]);
      }
    }
  }

  // ---- what one step changes ----

  /** Each step changes the stores and the ledger of one command by opposite amounts. */
  lemma StepTotal(w: World, i: nat, fails: bool)
    requires i < |w.threads| && Inv(w)
    ensures Total(Step(w, i, fails)) == Total(w)
  {
    hide Sum, Holdings, Worth, Ledger;
    var w' := Step(w, i, fails);
    StepHoldings(w, i, fails);
    StepWorth(w, i, fails);
    StepLedger(w, i, fails);
    SumUpdate(w.threads, i, w'.threads[i], Ledger);
    assert w'.threads == w.threads[i := w'.threads[i]];
  }

  /** What the step adds to purses and accounts together. */
  function HoldingsStep(t: Thread, t': Thread): int {
    if t.phase.Prepared? && Applied(t') then CoinDelta(t.op, t.phase.amount) + BankDelta(t.op, t.phase.amount)
    else if t.phase.Between? && IsCompleted(t') && t.op.Give? then t.phase.amount
    else if t.phase.Undo? && !Applied(t') then -CoinDelta(t.op, t.phase.amount) - BankDelta(t.op, t.phase.amount)
    else 0
  }

  function WorthStep(t: Thread, t': Thread): int {
    if t.phase.Between? && IsCompleted(t') then
      if t.op.Drop? then t.phase.amount else if t.op.TakePile? then -t.phase.amount else 0
    else 0
  }

  lemma StepHoldings(w: World, i: nat, fails: bool)
    requires i < |w.threads| && Inv(w)
    ensures var w' := Step(w, i, fails);
      Sum(w'.purses, Holdings) == Sum(w.purses, Holdings) + HoldingsStep(w.threads[i], w'.threads[i])
  {
    hide Sum;
    var w' := Step(w, i, fails);
    var t := w.threads[i];
    assert ThreadOk(w.purses, w.items, t);
    if w'.purses != w.purses {
      var c := if t.phase.Between? then t.op.target else t.op.actor;
      SumUpdate(w.purses, c, w'.purses[c], Holdings);
    }
  }

  lemma StepWorth(w: World, i: nat, fails: bool)
    requires i < |w.threads| && Inv(w)
    ensures var w' := Step(w, i, fails);
      Sum(w'.items, Worth) == Sum(w.items, Worth) + WorthStep(w.threads[i], w'.threads[i])
  {
    hide Sum;
    var w' := Step(w, i, fails);
    var t := w.threads[i];
    assert ThreadOk(w.purses, w.items, t);
    if w'.items != w.items {
      if t.op.Drop? {
        SumAppend(w.items, Item(true, true, t.phase.amount), Worth);
      } else {
        SumUpdate(w.items, t.op.item, w'.items[t.op.item], Worth);
      }
    }
  }

  lemma StepLedger(w: World, i: nat, fails: bool)
    requires i < |w.threads| && Inv(w)
    ensures var w' := Step(w, i, fails);
      var t, t' := w.threads[i], w'.threads[i];
      Ledger(t') == Ledger(t) - HoldingsStep(t, t') - WorthStep(t, t')
  {
    assert ThreadOk(w.purses, w.items, w.threads[i]);
  }

  /** A write changes a purse by exactly what its command takes on. */
  lemma StepCoin(w: World, i: nat, fails: bool, c: nat)
    requires i < |w.threads| && Inv(w) && c < |w.purses|
    ensures var w' := Step(w, i, fails);
      w'.purses[c].coin == w.purses[c].coin + CoinNet(w'.threads[i], c) - CoinNet(w.threads[i], c)
  {
    assert ThreadOk(w.purses, w.items, w.threads[i]);
  }

  lemma StepBank(w: World, i: nat, fails: bool, c: nat)
    requires i < |w.threads| && Inv(w) && c < |w.purses|
    ensures var w' := Step(w, i, fails);
      w'.purses[c].bank == w.purses[c].bank + BankNet(w'.threads[i], c) - BankNet(w.threads[i], c)
  {
    assert ThreadOk(w.purses, w.items, w.threads[i]);
  }

  lemma StepPurse(w: World, i: nat, fails: bool, c: nat)
    requires i < |w.threads| && Inv(w) && c < |w.purses|
    ensures var w' := Step(w, i, fails);
      && w'.purses[c].coin - Sum(w'.threads, CoinNetOf(c)) == w.purses[c].coin - Sum(w.threads, CoinNetOf(c))
      && w'.purses[c].bank - Sum(w'.threads, BankNetOf(c)) == w.purses[c].bank - Sum(w.threads, BankNetOf(c))
  {
    hide Sum, CoinNet, BankNet;
    var w' := Step(w, i, fails);
    StepCoin(w, i, fails, c);
    StepBank(w, i, fails, c);
    SumUpdate(w.threads, i, w'.threads[i], CoinNetOf(c));
    SumUpdate(w.threads, i, w'.threads[i], BankNetOf(c));
    assert w'.threads == w.threads[i := w'.threads[i]];
  }

  function Present(items: seq<Item>, k: nat): int {
    if k < |items| && items[k].live then 1 else 0
  }

  lemma StepItem(w: World, i: nat, fails: bool, k: nat)
    requires i < |w.threads| && Inv(w) && k < |w.items|
    ensures var w' := Step(w, i, fails);
      Present(w'.items, k) + Sum(w'.threads, DeletedOf(k)) == Present(w.items, k) + Sum(w.threads, DeletedOf(k))
  {
    var w' := Step(w, i, fails);
    assert ThreadOk(w.purses, w.items, w.threads[i]);
    SumUpdate(w.threads, i, w'.threads[i], DeletedOf(k));
    assert w'.threads == w.threads[i := w'.threads[i]];
  }

  // ---- the theorems: every interleaving ----

  /** Nothing has started yet. */
  ghost predicate AtStart(w: World) {
    forall i | 0 <= i < |w.threads| :: w.threads[i].phase == ReadActor
  }

  /** Coin is conserved over every schedule, with every failure anywhere. */
  lemma {:induction false} CoinConserved(w: World, turns: seq<Turn>)
    requires Inv(w)
    ensures Inv(Run(w, turns)) && Total(Run(w, turns)) == Total(w)
    decreases |turns|
  {
    hide Total, Inv, Step;
    if turns != [] {
      var turn := turns[0];
      if turn.thread < |w.threads| {
        StepInv(w, turn.thread, turn.fails);
        StepTotal(w, turn.thread, turn.fails);
        CoinConserved(Step(w, turn.thread, turn.fails), turns[1..]);
      } else {
        CoinConserved(w, turns[1..]);
      }
    }
  }

  /** Every purse and account is what it was plus exactly what each command says it did. */
  lemma {:induction false} PursesExplained(w: World, turns: seq<Turn>, c: nat)
    requires Inv(w) && c < |w.purses|
    ensures var w' := Run(w, turns);
      && c < |w'.purses|
      && w'.purses[c].coin == w.purses[c].coin + Sum(w'.threads, CoinNetOf(c)) - Sum(w.threads, CoinNetOf(c))
      && w'.purses[c].bank == w.purses[c].bank + Sum(w'.threads, BankNetOf(c)) - Sum(w.threads, BankNetOf(c))
    decreases |turns|
  {
    hide Inv, Step, Sum;
    if turns != [] {
      var turn := turns[0];
      if turn.thread < |w.threads| {
        StepInv(w, turn.thread, turn.fails);
        StepPurse(w, turn.thread, turn.fails, c);
        PursesExplained(Step(w, turn.thread, turn.fails), turns[1..], c);
      } else {
        PursesExplained(w, turns[1..], c);
      }
    }
  }

  /** An item that was there is still there, or exactly one command deleted it. */
  lemma {:induction false} ItemsExplained(w: World, turns: seq<Turn>, k: nat)
    requires Inv(w) && k < |w.items|
    ensures var w' := Run(w, turns);
      && k < |w'.items|
      && Present(w'.items, k) + Sum(w'.threads, DeletedOf(k)) == Present(w.items, k) + Sum(w.threads, DeletedOf(k))
    decreases |turns|
  {
    hide Inv, Step, Sum;
    if turns != [] {
      var turn := turns[0];
      if turn.thread < |w.threads| {
        StepInv(w, turn.thread, turn.fails);
        StepGrows(w, turn.thread, turn.fails);
        StepItem(w, turn.thread, turn.fails, k);
        ItemsExplained(Step(w, turn.thread, turn.fails), turns[1..], k);
      } else {
        ItemsExplained(w, turns[1..], k);
      }
    }
  }

  /** No command holds coin in flight any more. */
  ghost predicate AllSettled(w: World) {
    forall i | 0 <= i < |w.threads| :: w.threads[i].phase.Done? && !w.threads[i].phase.outcome.RollbackFailed?
  }

  function ShopPaid(t: Thread): int {
    if IsCompleted(t) && t.op.Sell? then t.phase.amount else 0
  }

  lemma {:induction false} SettledLedger(ts: seq<Thread>)
    requires forall i | 0 <= i < |ts| :: ts[i].phase.Done? && !ts[i].phase.outcome.RollbackFailed?
    ensures Sum(ts, Ledger) == -Sum(ts, ShopPaid)
  {
    if ts != [] {
      SettledLedger(ts[1..]);
    }
  }

  lemma {:induction false} StartLedger(ts: seq<Thread>)
    requires forall i | 0 <= i < |ts| :: ts[i].phase == ReadActor
    ensures Sum(ts, Ledger) == 0
  {
    if ts != [] {
      StartLedger(ts[1..]);
    }
  }

  /**
   Once every command has ended without a failed rollback, purses, accounts and
   floor piles hold what they held at the start plus what the shops paid for
   completed sales: every other command, completed or not, moved coin only.
   */
  lemma SettledMoney(w: World, turns: seq<Turn>)
    requires AtStart(w) && AllSettled(Run(w, turns))
    ensures var w' := Run(w, turns);
      Sum(w'.purses, Holdings) + Sum(w'.items, Worth)
      == Sum(w.purses, Holdings) + Sum(w.items, Worth) + Sum(w'.threads, ShopPaid)
  {
    hide Sum, Run;
    assert Inv(w);
    CoinConserved(w, turns);
    StartLedger(w.threads);
    SettledLedger(Run(w, turns).threads);
  }

  lemma {:induction false} DeletedCounts(ts: seq<Thread>, k: nat, i: nat)
    requires i < |ts| && Deleted(ts[i], k)
    ensures Sum(ts, DeletedOf(k)) >= 1
    ensures forall j | 0 <= j < |ts| && j != i && Deleted(ts[j], k) :: Sum(ts, DeletedOf(k)) >= 2
  {
    DeletedNat(ts[1..], k);
    if i > 0 {
      DeletedCounts(ts[1..], k, i - 1);
      assert forall j | 1 <= j < |ts| :: ts[j] == ts[1..][j - 1];
    } else {
      forall j | 0 < j < |ts| && Deleted(ts[j], k)
        ensures Sum(ts[1..], DeletedOf(k)) >= 1
      {
        DeletedCounts(ts[1..], k, j - 1);
      }
    }
  }

  lemma {:induction false} DeletedNat(ts: seq<Thread>, k: nat)
    ensures Sum(ts, DeletedOf(k)) >= 0
  {
    if ts != [] {
      DeletedNat(ts[1..], k);
    }
  }

  lemma {:induction false} StartDeletes(ts: seq<Thread>, k: nat)
    requires forall i | 0 <= i < |ts| :: ts[i].phase == ReadActor
    ensures Sum(ts, DeletedOf(k)) == 0
  {
    if ts != [] {
      StartDeletes(ts[1..], k);
    }
  }

  /** An item is sold or picked up by at most one command, and is gone when it is. */
  lemma DeletedOnce(w: World, turns: seq<Turn>, i: nat, j: nat, k: nat)
    requires AtStart(w) && k < |w.items|
    requires i < |Run(w, turns).threads| && j < |Run(w, turns).threads|
    requires Deleted(Run(w, turns).threads[i], k) && Deleted(Run(w, turns).threads[j], k)
    ensures i == j && Present(w.items, k) == 1 && Present(Run(w, turns).items, k) == 0
  {
    hide Run, Sum;
    assert Inv(w);
    ItemsExplained(w, turns, k);
    StartDeletes(w.threads, k);
    DeletedCounts(Run(w, turns).threads, k, i);
  }

  /** The only rows a command creates are coin piles. */
  lemma {:induction false} NewItemsArePiles(w: World, turns: seq<Turn>, n: nat)
    requires n <= |w.items| && forall k | n <= k < |w.items| :: w.items[k].pile
    ensures var w' := Run(w, turns);
      n <= |w'.items| && forall k | n <= k < |w'.items| :: w'.items[k].pile
    decreases |turns|
  {
    if turns != [] {
      var turn := turns[0];
      if turn.thread < |w.threads| {
        var w' := Step(w, turn.thread, turn.fails);
        assert forall k | n <= k < |w'.items| :: w'.items[k].pile;
        NewItemsArePiles(Step(w, turn.thread, turn.fails), turns[1..], n);
      } else {
        NewItemsArePiles(w, turns[1..], n);
      }
    }
  }

  function Others(ts: seq<Thread>, i: nat): seq<Thread>
    requires i < |ts|
  {
    ts[..i] + ts[i + 1..]
  }

  lemma {:induction false} SumOthers(ts: seq<Thread>, i: nat, f: Thread -> int)
    requires i < |ts|
    ensures Sum(ts, f) == f(ts[i]) + Sum(Others(ts, i), f)
  {
    if i == 0 {
      assert Others(ts, 0) == ts[1..];
    } else {
      SumOthers(ts[1..], i - 1, f);
      assert Others(ts, i)[1..] == Others(ts[1..], i - 1);
    }
  }

  lemma {:induction false} StartCoin(ts: seq<Thread>, c: nat)
    requires forall i | 0 <= i < |ts| :: ts[i].phase == ReadActor
    ensures Sum(ts, CoinNetOf(c)) == 0
  {
    if ts != [] {
      StartCoin(ts[1..], c);
    }
  }

  /** The price an ended sale has left in the purse. */
  function Paid(t: Thread): int
    requires t.op.Sell? && t.phase.Done?
  {
    if t.phase.outcome.Completed? || t.phase.outcome.RollbackFailed? then t.op.price else 0
  }

  /** What an ended sale did to the books, as far as its own thread tells. */
  lemma SaleRecorded(w: World, t: Thread)
    requires ThreadOk(w.purses, w.items, t) && t.op.Sell? && t.phase.Done?
    ensures CoinNet(t, t.op.actor) == Paid(t)
    ensures Deleted(t, t.op.item) <==> t.phase.outcome.Completed?
    ensures t.phase.outcome.Completed? ==> t.op.item < |w.items| && !w.items[t.op.item].pile
  {
  }

  /**
   However it was interleaved, a sale that has ended is all or nothing in the stores: the
   seller's purse holds what it held, the price exactly if the sale completed, and what the
   other commands put in or took; the item is there as it was, less one exactly if the sale
   completed, less what the others deleted. Only where the rollback itself failed is the
   price in the purse without the item gone.
   */
  lemma SaleAllOrNothing(w: World, turns: seq<Turn>, i: nat)
    requires AtStart(w) && i < |Run(w, turns).threads|
    requires Run(w, turns).threads[i].op.Sell? && Run(w, turns).threads[i].phase.Done?
    ensures var w' := Run(w, turns);
      var t := w'.threads[i];
      var others := Others(w'.threads, i);
      && (t.op.actor < |w.purses| ==>
            t.op.actor < |w'.purses|
            && w'.purses[t.op.actor].coin == w.purses[t.op.actor].coin + Paid(t) + Sum(others, CoinNetOf(t.op.actor)))
      && (t.op.item < |w.items| ==>
            Present(w'.items, t.op.item) + (if t.phase.outcome.Completed? then 1 else 0)
            == Present(w.items, t.op.item) - Sum(others, DeletedOf(t.op.item)))
      && (t.phase.outcome.Completed? ==> t.op.item < |w.items| && Present(w'.items, t.op.item) == 0)
      && (Deleted(t, t.op.item) <==> t.phase.outcome.Completed?)
      && CoinNet(t, t.op.actor) == Paid(t)
  {
    hide Run, Sum, ThreadOk, CoinNet, Deleted, Others, Present;
    var w' := Run(w, turns);
    var t := w'.threads[i];
    assert Inv(w) by { StartOk(w); }
    CoinConserved(w, turns);
    SaleRecorded(w', t);
    if t.op.actor < |w.purses| {
      PursesExplained(w, turns, t.op.actor);
      StartCoin(w.threads, t.op.actor);
      SumOthers(w'.threads, i, CoinNetOf(t.op.actor));
    }
    NewItemsArePiles(w, turns, |w.items|);
    if t.op.item < |w.items| {
      ItemsExplained(w, turns, t.op.item);
      StartDeletes(w.threads, t.op.item);
      SumOthers(w'.threads, i, DeletedOf(t.op.item));
    }
    if t.phase.outcome.Completed? {
      DeletedCounts(w'.threads, t.op.item, i);
      PresentAtMostOne(w.items, t.op.item);
      PresentAtMostOne(w'.items, t.op.item);
    }
  }

  lemma StartOk(w: World)
    requires AtStart(w)
    ensures Inv(w)
  {
  }

  lemma PresentAtMostOne(items: seq<Item>, k: nat)
    ensures 0 <= Present(items, k) <= 1
  {
  }

  /** The compensating write restores the purse exactly when no other write came in between. */
  lemma RollbackExact(w: World, i: nat, fails: bool)
    requires i < |w.threads| && Inv(w) && w.threads[i].phase.Undo?
    ensures var t := w.threads[i];
      var w' := Step(w, i, fails);
      && (w'.threads[i].phase.outcome.RolledBack?
          <==> !fails && w.purses[t.op.actor].version == t.phase.mine.version + 1)
      && (w'.threads[i].phase.outcome.RolledBack? ==>
            && w'.purses[t.op.actor].coin == t.phase.mine.coin
            && w'.purses[t.op.actor].bank == t.phase.mine.bank)
      && (!w'.threads[i].phase.outcome.RolledBack? ==> w'.purses == w.purses && w'.items == w.items)
  {
    assert ThreadOk(w.purses, w.items, w.threads[i]);
  }

  // ---- nobody spends what they do not have ----

  /** Coin in a store: no debt, within 64 bits. */
  predicate InStore(v: int) {
    0 <= v <= MAX_INT64
  }

  ghost predicate Solvent(w: World) {
    && (forall c | 0 <= c < |w.purses| :: InStore(w.purses[c].coin) && InStore(w.purses[c].bank))
    && (forall k | 0 <= k < |w.items| && w.items[k].pile :: InStore(w.items[k].value))
  }

  /** What the command has read is solvent, and so is every row it is about to write. */
  ghost predicate ThreadSolvent(t: Thread) {
    && (t.op.Sell? ==> t.op.price >= 0)
    && match t.phase
       case ReadActor => true
       case ReadTarget(mine) => InStore(mine.coin) && InStore(mine.bank)
       case Prepared(mine, theirs, amount) =>
         && InStore(mine.coin) && InStore(mine.bank) && InStore(amount)
         && InStore(Written(t.op, mine, amount).coin) && InStore(Written(t.op, mine, amount).bank)
         && (t.op.Give? ==> InStore(theirs.coin + amount) && InStore(theirs.bank))
       case Between(mine, theirs, amount) =>
         && InStore(mine.coin) && InStore(mine.bank) && InStore(amount)
         && (t.op.Give? ==> InStore(theirs.coin + amount) && InStore(theirs.bank))
       case Undo(mine, amount) => InStore(mine.coin) && InStore(mine.bank)
       case Done(_, _) => true
  }

  ghost predicate AllSolvent(w: World) {
    Solvent(w) && forall i | 0 <= i < |w.threads| :: ThreadSolvent(w.threads[i])
  }

  lemma StepSolvent(w: World, i: nat, fails: bool)
    requires i < |w.threads| && AllSolvent(w)
    ensures AllSolvent(Step(w, i, fails))
  {
    hide SecondWrite;
    var w', t := Step(w, i, fails), w.threads[i];
    assert ThreadSolvent(t);
    if t.phase.Between? {
      SecondSolvent(w, i, fails);
    } else if t.phase.ReadActor? || t.phase.ReadTarget? {
      ReadSolvent(w, i, fails);
    } else {
      hide Prepare;
      assert Solvent(w') && ThreadSolvent(w'.threads[i]);
    }
    assert forall j | 0 <= j < |w.threads| && j != i :: w'.threads[j] == w.threads[j];
  }

  lemma ReadSolvent(w: World, i: nat, fails: bool)
    requires i < |w.threads| && Solvent(w) && ThreadSolvent(w.threads[i])
    requires w.threads[i].phase.ReadActor? || w.threads[i].phase.ReadTarget?
    ensures var w' := Step(w, i, fails); Solvent(w') && ThreadSolvent(w'.threads[i])
    ensures var w' := Step(w, i, fails); forall j | 0 <= j < |w.threads| && j != i :: w'.threads[j] == w.threads[j]
  {
    hide SecondWrite, RecordCoin;
  }

  lemma SecondSolvent(w: World, i: nat, fails: bool)
    requires i < |w.threads| && Solvent(w) && ThreadSolvent(w.threads[i]) && w.threads[i].phase.Between?
    ensures var w' := Step(w, i, fails); Solvent(w') && ThreadSolvent(w'.threads[i])
    ensures var w' := Step(w, i, fails); forall j | 0 <= j < |w.threads| && j != i :: w'.threads[j] == w.threads[j]
  {
    hide Prepare;
  }

  /** Whatever the schedule and the failures, no purse, no account and no pile is ever negative or beyond 64 bits. */
  lemma {:induction false} NeverNegative(w: World, turns: seq<Turn>)
    requires AllSolvent(w)
    ensures AllSolvent(Run(w, turns))
    decreases |turns|
  {
    hide AllSolvent, Step;
    if turns != [] {
      var turn := turns[0];
      if turn.thread < |w.threads| {
        StepSolvent(w, turn.thread, turn.fails);
        NeverNegative(Step(w, turn.thread, turn.fails), turns[1..]);
      } else {
        NeverNegative(w, turns[1..]);
      }
    }
  }

  /** At the start that asks for nothing but stores without debt and prices that are none. */
  lemma StartSolvent(w: World)
    requires AtStart(w) && Solvent(w)
    requires forall i | 0 <= i < |w.threads| && w.threads[i].op.Sell? :: w.threads[i].op.price >= 0
    ensures AllSolvent(w)
  {
  }

  // ---- what a command needs and what it moves ----

  /** In numbers: the amount is positive and covered by the row read, and the other side can hold it. */
  ghost predicate Covered(op: Op, mine: Purse, theirs: Purse, items: seq<Item>) {
    match op
    case Give(_, _, amount) => 0 < amount <= mine.coin && theirs.coin + amount <= MAX_INT64
    case Drop(_, amount) => 0 < amount <= mine.coin
    case TakePile(_, item) => item < |items| && items[item].pile && mine.coin + items[item].value <= MAX_INT64
    case Deposit(_, amount) => 0 < amount <= mine.coin && mine.bank + amount <= MAX_INT64
    case Withdraw(_, amount) => 0 < amount <= mine.bank && mine.coin + amount <= MAX_INT64
    case Sell(_, item, price) => item < |items| && !items[item].pile && mine.coin + price <= MAX_INT64
  }

  /** The last read passes the checks exactly when the command is covered, and what it read is what it goes on with. */
  lemma ChecksExactly(w: World, i: nat)
    requires i < |w.threads| && AllSolvent(w) && w.threads[i].op.actor < |w.purses|
    requires var t := w.threads[i];
      if t.op.Give? then t.phase.ReadTarget? && t.op.target < |w.purses| else t.phase.ReadActor?
    ensures var t, phase := w.threads[i], Step(w, i, false).threads[i].phase;
      var mine := if t.op.Give? then t.phase.mine else w.purses[t.op.actor];
      var theirs := w.purses[if t.op.Give? then t.op.target else t.op.actor];
      && (phase.Prepared? <==> Covered(t.op, mine, theirs, w.items))
      && (phase.Prepared? ==> phase.mine == mine && phase.theirs == theirs && Asked(t.op, w.items, phase.amount))
      && (!phase.Prepared? ==> phase == Done(Refused, 0))
  {
    assert ThreadSolvent(w.threads[i]);
  }

  /** The amount is the one asked for: that of the command, the value of the pile, or the price. */
  ghost predicate Asked(op: Op, items: seq<Item>, amount: int) {
    match op
    case TakePile(_, item) => item < |items| && items[item].value == amount
    case Sell(_, _, price) => amount == price
    case _ => amount == op.amount
  }

  ghost predicate ThreadAsks(items: seq<Item>, t: Thread) {
    match t.phase
    case ReadActor => true
    case ReadTarget(_) => true
    case Prepared(_, _, amount) => Asked(t.op, items, amount)
    case Between(_, _, amount) => Asked(t.op, items, amount)
    case Undo(_, amount) => Asked(t.op, items, amount)
    case Done(outcome, amount) => outcome.Refused? || Asked(t.op, items, amount)
  }

  ghost predicate AllAsk(w: World) {
    forall i | 0 <= i < |w.threads| :: ThreadAsks(w.items, w.threads[i])
  }

  lemma StepAsks(w: World, i: nat, fails: bool)
    requires i < |w.threads| && AllAsk(w)
    ensures AllAsk(Step(w, i, fails))
  {
    var w' := Step(w, i, fails);
    StepGrows(w, i, fails);
    OwnStepAsks(w, i, fails);
    forall j | 0 <= j < |w'.threads|
      ensures ThreadAsks(w'.items, w'.threads[j])
    {
      assert j != i ==> w'.threads[j] == w.threads[j];
    }
  }

  lemma OwnStepAsks(w: World, i: nat, fails: bool)
    requires i < |w.threads| && ThreadAsks(w.items, w.threads[i])
    ensures var w' := Step(w, i, fails); ThreadAsks(w'.items, w'.threads[i])
  {
    hide RecordCoin;
  }

  /** Over every run no command moves any other amount than the one asked for. */
  lemma {:induction false} RunAsks(w: World, turns: seq<Turn>)
    requires AllAsk(w)
    ensures AllAsk(Run(w, turns))
    decreases |turns|
  {
    hide AllAsk, Step;
    if turns != [] {
      var turn := turns[0];
      if turn.thread < |w.threads| {
        StepAsks(w, turn.thread, turn.fails);
        RunAsks(Step(w, turn.thread, turn.fails), turns[1..]);
      } else {
        RunAsks(w, turns[1..]);
      }
    }
  }

  /** What a completed command owes to the purse of character c. */
  function CoinOwed(op: Op, items: seq<Item>, c: nat): int
    requires op.TakePile? ==> op.item < |items|
  {
    match op
    case Give(actor, target, amount) => (if c == target then amount else 0) - (if c == actor then amount else 0)
    case Drop(actor, amount) => if c == actor then -amount else 0
    case TakePile(actor, item) => if c == actor then items[item].value else 0
    case Deposit(actor, amount) => if c == actor then -amount else 0
    case Withdraw(actor, amount) => if c == actor then amount else 0
    case Sell(actor, item, price) => if c == actor then price else 0
  }

  function BankOwed(op: Op, c: nat): int {
    match op
    case Deposit(actor, amount) => if c == actor then amount else 0
    case Withdraw(actor, amount) => if c == actor then -amount else 0
    case _ => 0
  }

  /**
   However it was interleaved, an ended command has moved exactly the amount asked for, from
   and to the rows it names, or nothing at all; only where its rollback failed is it half done.
   */
  lemma CommandAllOrNothing(w: World, turns: seq<Turn>, i: nat, c: nat)
    requires AtStart(w) && i < |Run(w, turns).threads| && c < |w.purses|
    requires var phase := Run(w, turns).threads[i].phase; phase.Done? && !phase.outcome.RollbackFailed?
    ensures var w' := Run(w, turns);
      var t, others := w'.threads[i], Others(w'.threads, i);
      && c < |w'.purses|
      && (t.op.TakePile? && IsCompleted(t) ==> t.op.item < |w'.items|)
      && w'.purses[c].coin
         == w.purses[c].coin + (if IsCompleted(t) then CoinOwed(t.op, w'.items, c) else 0) + Sum(others, CoinNetOf(c))
      && w'.purses[c].bank
         == w.purses[c].bank + (if IsCompleted(t) then BankOwed(t.op, c) else 0) + Sum(others, BankNetOf(c))
  {
    hide Run, Sum, Others;
    var w' := Run(w, turns);
    var t := w'.threads[i];
    StartOk(w);
    assert AllAsk(w);
    RunAsks(w, turns);
    PursesExplained(w, turns, c);
    StartCoin(w.threads, c);
    StartBank(w.threads, c);
    SumOthers(w'.threads, i, CoinNetOf(c));
    SumOthers(w'.threads, i, BankNetOf(c));
    assert ThreadAsks(w'.items, t);
  }

  lemma {:induction false} StartBank(ts: seq<Thread>, c: nat)
    requires forall i | 0 <= i < |ts| :: ts[i].phase == ReadActor
    ensures Sum(ts, BankNetOf(c)) == 0
  {
    if ts != [] {
      StartBank(ts[1..], c);
    }
  }

  /** A call that fails changes no store. */
  lemma FailureTouchesNothing(w: World, i: nat)
    requires i < |w.threads|
    ensures Step(w, i, true).purses == w.purses && Step(w, i, true).items == w.items
  {
  }

  /** The row at c once the command has completed. */
  function Settled(op: Op, items: seq<Item>, purses: seq<Purse>, c: nat): Purse
    requires c < |purses| && (op.TakePile? ==> op.item < |items|)
  {
    var p := purses[c];
    Purse(p.coin + CoinOwed(op, items, c), p.bank + BankOwed(op, c),
          if c == op.actor || (op.Give? && c == op.target) then p.version + 1 else p.version)
  }

  function SettledItems(op: Op, items: seq<Item>): seq<Item> {
    match op
    case Drop(_, amount) => items + [Item(true, true, amount)]
    case TakePile(_, item) => if item < |items| then items[item := items[item].(live := false)] else items
    case Sell(_, item, _) => if item < |items| then items[item := items[item].(live := false)] else items
    case _ => items
  }

  /** What the command is to move. */
  function ToMove(op: Op, items: seq<Item>): int
    requires op.TakePile? ==> op.item < |items|
  {
    match op
    case TakePile(_, item) => items[item].value
    case Sell(_, _, price) => price
    case _ => op.amount
  }

  /** A covered command at its start, and what it takes is still there; a gift goes to somebody else. */
  ghost predicate Able(w: World, i: nat) {
    && i < |w.threads| && w.threads[i].phase == ReadActor
    && var op := w.threads[i].op;
    && op.actor < |w.purses| && (op.Give? ==> op.target < |w.purses| && op.target != op.actor)
    && Covered(op, w.purses[op.actor], w.purses[if op.Give? then op.target else op.actor], w.items)
    && (op.TakePile? || op.Sell? ==> w.items[op.item].live)
  }

  lemma AloneReads(w: World, i: nat)
    requires AllSolvent(w) && Able(w, i)
    ensures var op := w.threads[i].op;
      var once := Step(w, i, false);
      (if op.Give? then Step(once, i, false) else once)
      == SetPhase(w, i, Prepared(w.purses[op.actor], w.purses[if op.Give? then op.target else op.actor],
                                 ToMove(op, w.items)))
  {
    assert ThreadSolvent(w.threads[i]);
    var op := w.threads[i].op;
    if op.Give? {
      var once := Step(w, i, false);
      assert once == SetPhase(w, i, ReadTarget(w.purses[op.actor]));
      assert once.threads[i := once.threads[i].(phase := Step(once, i, false).threads[i].phase)]
             == w.threads[i := w.threads[i].(phase := Step(once, i, false).threads[i].phase)];
    }
  }

  lemma AloneWrites(w: World, i: nat)
    requires i < |w.threads| && w.threads[i].phase.Prepared? && w.threads[i].op.actor < |w.purses|
    requires w.threads[i].phase.mine == w.purses[w.threads[i].op.actor]
    ensures var t := w.threads[i];
      var p := t.phase;
      Step(w, i, false) == SetPhase(w.(purses := w.purses[t.op.actor := Written(t.op, p.mine, p.amount)]), i,
                                    if HasSecondWrite(t.op) then Between(p.mine, p.theirs, p.amount)
                                    else Done(Completed, p.amount))
  {
  }

  lemma AloneEnds(w: World, i: nat)
    requires i < |w.threads| && w.threads[i].phase.Between? && HasSecondWrite(w.threads[i].op)
    requires var t := w.threads[i];
      && (t.op.Give? ==> t.op.target < |w.purses| && t.phase.theirs == w.purses[t.op.target])
      && (t.op.TakePile? || t.op.Sell? ==> t.op.item < |w.items| && w.items[t.op.item].live)
      && (t.op.Drop? ==> t.phase.amount == t.op.amount)
    ensures var t, w' := w.threads[i], Step(w, i, false);
      && w'.threads[i].phase == Done(Completed, t.phase.amount)
      && w'.items == SettledItems(t.op, w.items)
      && |w'.purses| == |w.purses|
      && forall c | 0 <= c < |w.purses| :: w'.purses[c] ==
           if t.op.Give? && c == t.op.target
           then Purse(w.purses[c].coin + t.phase.amount, w.purses[c].bank, w.purses[c].version + 1) else w.purses[c]
  {
  }

  lemma DoneStays(w: World, i: nat)
    requires i < |w.threads| && w.threads[i].phase.Done?
    ensures Step(w, i, false) == w
  {
  }

  /** Four calls of one command with nobody else acting. */
  function Alone(w: World, i: nat): World
    requires i < |w.threads|
  {
    Step(Step(Step(Step(w, i, false), i, false), i, false), i, false)
  }

  lemma AloneIsRun(w: World, i: nat)
    requires i < |w.threads|
    ensures Run(w, [Turn(i, false), Turn(i, false), Turn(i, false), Turn(i, false)]) == Alone(w, i)
  {
    hide Step;
    var t := Turn(i, false);
    assert [t, t, t, t][1..] == [t, t, t] && [t, t, t][1..] == [t, t] && [t, t][1..] == [t] && [t][1..] == [];
    var w1 := Step(w, i, false);
    var w2 := Step(w1, i, false);
    assert Run(w2, [t, t]) == Step(Step(w2, i, false), i, false) by {
      assert Run(Step(w2, i, false), [t]) == Step(Step(w2, i, false), i, false);
    }
    assert Run(w1, [t, t, t]) == Run(w2, [t, t]);
  }

  /**
   Left alone, a command that is covered completes, with exactly the rows it names changed by
   exactly what it is to move.
   */
  lemma AloneCompletes(w: World, i: nat)
    requires AllSolvent(w) && Able(w, i)
    ensures var w', op := Alone(w, i), w.threads[i].op;
      && IsCompleted(w'.threads[i])
      && |w'.purses| == |w.purses|
      && (forall c | 0 <= c < |w.purses| :: w'.purses[c] == Settled(op, w.items, w.purses, c))
      && w'.items == SettledItems(op, w.items)
  {
    hide Step, AllSolvent;
    var op := w.threads[i].op;
    AloneReads(w, i);
    var once := Step(w, i, false);
    var read := if op.Give? then Step(once, i, false) else once;
    AloneWrites(read, i);
    var written := Step(read, i, false);
    if HasSecondWrite(op) {
      AloneEnds(written, i);
      var ended := Step(written, i, false);
      DoneStays(ended, i);
    } else {
      DoneStays(written, i);
    }
  }

  /** A second write that fails, or that the stores refuse, leaves them alone, and the command undoes its first. */
  lemma SecondWriteFails(w: World, i: nat, fails: bool)
    requires i < |w.threads| && w.threads[i].phase.Between?
    requires fails || SecondWrite(w, w.threads[i].op, w.threads[i].phase.theirs, w.threads[i].phase.amount).None?
    ensures var w', p := Step(w, i, fails), w.threads[i].phase;
      w' == w.(threads := w'.threads) && w'.threads[i].phase == Undo(p.mine, p.amount)
  {
  }

  /** Left alone, a covered command whose second write fails is rolled back: the stores hold what they held. */
  lemma AloneRollsBack(w: World, i: nat)
    requires AllSolvent(w) && Able(w, i) && HasSecondWrite(w.threads[i].op)
    ensures var once := Step(w, i, false);
      var read := if w.threads[i].op.Give? then Step(once, i, false) else once;
      var w' := Step(Step(Step(read, i, false), i, true), i, false);
      && w'.threads[i].phase.Done? && w'.threads[i].phase.outcome.RolledBack?
      && w'.items == w.items && |w'.purses| == |w.purses|
      && forall c | 0 <= c < |w.purses| ::
           w'.purses[c].coin == w.purses[c].coin && w'.purses[c].bank == w.purses[c].bank
  {
    hide AllSolvent, Prepare, SecondWrite, Covered;
    var op := w.threads[i].op;
    AloneReads(w, i);
    var once := Step(w, i, false);
    var read := if op.Give? then Step(once, i, false) else once;
    AloneWrites(read, i);
    var written := Step(read, i, false);
    SecondWriteFails(written, i, true);
    UndoRestores(w, Step(written, i, true), i);
  }

  lemma UndoRestores(w: World, failed: World, i: nat)
    requires i < |failed.threads| && failed.threads[i].phase.Undo? && failed.threads[i].op.actor < |w.purses|
    requires var t := failed.threads[i];
      && failed.purses == w.purses[t.op.actor := Written(t.op, t.phase.mine, t.phase.amount)]
      && t.phase.mine == w.purses[t.op.actor] && failed.items == w.items
    ensures var w' := Step(failed, i, false);
      && w'.threads[i].phase.Done? && w'.threads[i].phase.outcome.RolledBack?
      && w'.items == w.items && |w'.purses| == |w.purses|
      && forall c | 0 <= c < |w.purses| ::
           w'.purses[c].coin == w.purses[c].coin && w'.purses[c].bank == w.purses[c].bank
  {
  }
}
