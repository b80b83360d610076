# WheelMUD: a verified model of the hard parts

WheelMUD is a telnet game server. This project models the parts of it that decide
something hard and proves what they promise:

- the **line editor and its redraw protocol** (`Utf8`, `Terminal`, `LineEdits`,
  `LineBuffers`, `Display`, `DisplayRows`, `Sessions`): the remote terminal row is a machine of its
  own, every echo is bytes fed to it, and the theorem is which interleavings of
  keystrokes, tab completions, bare Enters and writes from other goroutines keep the
  row equal to prompt plus input line, and that no message is lost above it;
- **coin and item transfers** (`CoinLedger`): give, drop, get-pile, deposit,
  withdraw and sell as interleaved sequences of store calls, any of which may fail;
- the **item forest** (`Walks`, `ItemForest`, `PutRuns`): bounded ancestor walks, recursive
  weight and depth, the put gates, puts that interleave, and the breadth-first container
  view;
- the **text machinery** (`Wrapping`, `WrapLayouts`, `Tokenizer`, `Subnegotiation`): reflow to a
  width, three quote scanners that must agree, and framed telnet payloads;
- the **command registry** (`CommandRegistry`): halving and an alias map against a
  naive scan;
- **graph and run invariants** (`MapSurvey`, `MapGrid`, `Following`, `FollowRuns`,
  `FloodGates`, `AffectList`).

Code that changes state is a class or a method with loops, proved against functions;
the theorems are about those functions and about whole runs of them. Widths of runes
are an abstract function (`Font`) with printable ASCII one cell wide, and the width
of a string is the sum of the widths of its runes.

## What the proofs found

- `Backspace` and `MoveLeft` send one BS at least, while every other redraw counts
  cells. The row is lost exactly when the rune stepped over has no cells and the
  column is not 0 (`LineEdits.EditKeepsSync`).
- `WriteAsync` repaints the whole line and does not step back, so it keeps the row in
  sync exactly when nothing that is echoed with cells stands right of the cursor; then
  it also repairs any row (`Display.AsyncRepairs`).
- `SetPasswordMode` flips the mask whatever has been typed. The row is in sync afterwards
  exactly when the line is stars (`Display.SetMaskSync`); masked typing and erasing with
  the cursor inside the line lose the row too (`Display.MaskedKeySync`).
- A prompt that comes after typed-ahead input is painted behind it, wherever the cursor
  stands (`Display.PromptAfterTyping` says when that still looks right). A write from
  another goroutine between the answer and the prompt paints the cached prompt first, so
  the row then shows two (`Display.PromptAfterAsync`).
- A bare Enter or a candidate listing with an empty prompt leaves the old prompt
  cached, and the row is in sync afterwards exactly when that one draws nothing.
- The bytes C0, C1, F5 to FE, and FF sent as IAC IAC, are put into the buffer raw
  because they are printable as Latin-1 code points; each makes the buffer malformed
  UTF-8 (`Sessions.RawIsNeverUtf8`, `Sessions.Session.BufferInput`).
- `canPut` looks only at the destination's capacity. The put command passes containers
  held at the top level or lying in the room, and for those that is enough
  (`ItemForest.RootPutKeepsCapacities`). A caller that passed a container inside
  another would need more (`ItemForest.NestedPutOverfills`);
  `ItemForest.PutCapacityExactly` says what.
- A put is checked and then carried out, and nothing holds the container in between: two
  sessions that put into one chest at the same time can overfill it
  (`PutRuns.TwoPutsOverfill`). `PutRuns.RunExactly` says when runs do not, and
  `PutRuns.CalmRunKeepsCapacities` gives a condition on the schedule.
- A follow is checked and then written, and nothing holds the graph still in between: two
  sessions that check each other at the same time end up in a circle
  (`FollowRuns.TwoChecksThenTwoWrites`). `FollowRuns.RunExactly` says when runs are
  free of circles. A move handles such a circle: `Following.Party.ChainFollowers` holds on
  any follow graph.
- Wrapping is settled by one pass unless a CR dropped at column 0 has joined a word and a
  rune wider than the line: the second pass cuts them
  (`Wrapping.RewrapExactly`, `Wrapping.WideRuneNotIdempotent`).
- `Tick` wraps the least 32-bit duration to the largest, so that one entry survives
  (`AffectList.SurvivesExactly`). A heal that carries hit points past the largest
  32-bit word wraps below zero and is floored to 0, before the ceiling is looked at
  (`AffectList.HealThatKills`); `AffectList.TickEffectsExactly` gives the condition.

## Model

| member | source | states |
|---|---|---|
| Utf8.DecodeEncode | telnet/server.go:239-268 | decoding what encodes a rune gives the rune and its length, whatever follows (RFC 3629 sections 3 and 4) |
| Utf8.DecodeSound | telnet/server.go:239-268 | and only what encodes a rune does; anything else is one malformed byte |
| Utf8.DecodeLastEncode | telnet/lineedit.go:114-136 | the decoder from the end finds the last rune behind any bytes |
| Utf8.DecodeAllEncodeAll | telnet/lineedit.go:85-108 | decoding inverts encoding on every sequence of runes |
| Utf8.Utf8Append | telnet/lineedit.go:62-108 | joining well-formed byte strings is well formed and joins their runes |
| Terminal.WriteAppend | telnet/lineedit.go:27-33 | output cut between tokens is seen by the terminal as one write |
| Terminal.WriteText | telnet/lineedit.go:62-78 | printable text overwrites its cells in place and advances by its width |
| Terminal.WriteBack | telnet/lineedit.go:159-189 | n backspaces move n cells left and change nothing |
| Terminal.WriteAbove | telnet/session.go:992-1001 | what is written does not depend on the rows above, and only adds to them |
| LineEdits.EditKeepsSync | telnet/lineedit.go:62-292 | the echo of every edit takes a row showing base plus line to one showing base plus edited line then blanks, cursor in place, if and only if the edit does not step back over a rune without cells at a column other than 0 |
| LineEdits.InsertKeepsSync | telnet/lineedit.go:85-108 | an inserted rune and the redrawn rest keep the row in sync, for runes of any width |
| LineEdits.BackspaceSync | telnet/lineedit.go:114-136 | backspace keeps the row in sync exactly when it does not drift |
| LineEdits.DeleteKeepsSync | telnet/lineedit.go:140-156 | delete closes the gap on the row, with blanks where cells were freed |
| LineEdits.MoveLeftSync | telnet/lineedit.go:159-166 | the cursor steps left by the rune's cells exactly when it does not drift |
| LineEdits.MoveRightKeepsSync | telnet/lineedit.go:171-179 | re-echoing the rune moves the cursor over it and leaves the row |
| LineEdits.MoveHomeKeepsSync | telnet/lineedit.go:182-189 | the cursor ends right of the base |
| LineEdits.MoveEndKeepsSync | telnet/lineedit.go:193-200 | the cursor ends right of the whole line |
| LineEdits.KillToStartKeepsSync | telnet/lineedit.go:204-220 | what stood left of the cursor is gone from the row |
| LineEdits.KillToEndKeepsSync | telnet/lineedit.go:224-234 | what stood right of the cursor is gone from the row |
| LineEdits.KillPrevWordKeepsSync | telnet/lineedit.go:240-276 | the word before the cursor is gone from the row, the rest moved up |
| LineEdits.ReplaceKeepsSync | telnet/lineedit.go:281-292 | the row shows the new line and no cell of the old one |
| LineEdits.MotionsMove | telnet/lineedit.go:159-200 | motions leave the text alone and move the cursor by one rune or to an end |
| LineEdits.DeletingUndoes | telnet/lineedit.go:85-156 | erasing on either side undoes an insert and does nothing where nothing is |
| LineEdits.KillsTake | telnet/lineedit.go:204-292 | the kills take what is on their side of the cursor and leave the other; a recalled line replaces all |
| LineEdits.WordStartIs | telnet/lineedit.go:240-276 | the word cut is the longest run of non-spaces before the cursor, with all the spaces behind it |
| LineBuffers.LineEdit.constructor | telnet/lineedit.go:27-31 | a new line is empty and well formed |
| LineBuffers.LineEdit.Reset | telnet/lineedit.go:50-53 | the line is empty |
| LineBuffers.LineEdit.Insert | telnet/lineedit.go:62-78 | splices one byte at the cursor; an ASCII byte is that edit with its echo; a byte UTF-8 never uses leaves the buffer malformed |
| LineBuffers.LineEdit.InsertRune | telnet/lineedit.go:85-108 | splices the encoding at the cursor; on well-formed text it is the rune edit with its echo |
| LineBuffers.LineEdit.Backspace | telnet/lineedit.go:114-136 | cuts the bytes of one rune, four at most, for any bytes; on well-formed text it is the edit and its echo |
| LineBuffers.LineEdit.Delete | telnet/lineedit.go:140-156 | cuts one rune at the cursor; on well-formed text it is the edit and its echo |
| LineBuffers.LineEdit.MoveLeft | telnet/lineedit.go:159-166 | the cursor steps one rune left and stays on a rune boundary |
| LineBuffers.LineEdit.MoveRight | telnet/lineedit.go:171-179 | the cursor steps one rune right and stays on a rune boundary |
| LineBuffers.LineEdit.MoveHome | telnet/lineedit.go:182-189 | the cursor goes to the start, with the echo of that edit |
| LineBuffers.LineEdit.MoveEnd | telnet/lineedit.go:193-200 | the cursor goes to the end, with the echo of that edit |
| LineBuffers.LineEdit.KillToStart | telnet/lineedit.go:204-220 | cuts all before the cursor, with the echo of that edit |
| LineBuffers.LineEdit.KillToEnd | telnet/lineedit.go:224-234 | cuts all behind the cursor, with the echo of that edit |
| LineBuffers.LineEdit.SkipRun | telnet/lineedit.go:245-263 | the backward byte loop stops at the start of the run of (non-)space runes and on a rune boundary |
| LineBuffers.LineEdit.KillPrevWord | telnet/lineedit.go:240-276 | cuts from the previous word's start, with the echo of that edit |
| LineBuffers.LineEdit.Replace | telnet/lineedit.go:281-292 | the buffer is the new text, with the echo of that edit |
| Display.StepSync | telnet/session.go:841-1001 | one critical section from a row in sync ends in sync if and only if its condition, read off before the step, held; flipping the mask over typed text is such a step |
| Display.RunSync | telnet/session.go:841-1001 | in every interleaving whose steps meet their conditions the last row stays prompt plus input, or prompt plus one star per rune while masked |
| Display.LineCycle | telnet/server.go:79-125 | whatever the row was, and whatever is written, cached or masked once the line is taken: after an output that ends its line the prompt brings the row back in sync, and the run goes on |
| Display.AsyncRepairs | telnet/session.go:953-1001 | with no cells right of the cursor a write from another goroutine repairs any row, and the run from there on is in sync |
| Display.AsyncRepaints | telnet/session.go:953-1001 | whatever the row was, after such a write it is prompt and line with the cursor at the end of the line |
| Display.AsyncSync | telnet/session.go:953-1001 | such a write ends in sync exactly when nothing that is echoed with cells stands right of the cursor |
| Display.BareEnterSync | telnet/session.go:862-873 | the fresh prompt row is in sync exactly when the prompt written is the prompt cached, as far as it is drawn |
| Display.ListingSync | telnet/server.go:566-587 | the same after candidates, with the line painted behind the prompt |
| Display.ExtendSync | telnet/server.go:547-564 | rubbing the partial word out cell by cell and writing the completion shows the completed line |
| Display.MaskedKeySync | telnet/server.go:426-480 | masked typing and erasing keep one star per rune exactly when the cursor is at the end, or the one rune of a line without prompt is erased |
| Display.SetMaskSync | telnet/session.go:919-925 | flipping the mask keeps the row in sync exactly when it stays as it is or the line is stars |
| Display.TakeLineSync | telnet/server.go:398-403 | taking the line out keeps the row in sync exactly when it showed blanks only and its cursor stood at the prompt |
| Display.OutputSync | telnet/session.go:821-832 | output that draws cells into the row loses it; output of whole lines and then text leaves the row in sync exactly when that text is prompt and line, with the cursor at the end |
| Display.PromptSync | telnet/session.go:841-856 | whatever row it is written over, a prompt keeps the row in sync exactly when it breaks the line or finds it fresh and no input has cells, or when nothing stood before the input and the prompt looks as if it came before it |
| Display.PromptOnFreshSync | telnet/session.go:841-856 | on a fresh row, or behind its own line end, a prompt brings any row in sync exactly when no input with cells is waiting |
| Display.PromptAfterTyping | telnet/session.go:841-856 | over a row that shows input behind any base, cursor anywhere: in sync exactly when the base is empty, the part left of the cursor looks the same before and behind the prompt, and the part right of it is blank with room for the prompt |
| Display.PromptAfterAsync | telnet/session.go:953-1001 | a prompt after an asynchronous write is in sync exactly when the prompt cached before drew nothing |
| Display.CacheSync | telnet/session.go:875-892 | caching another prompt, or dropping it, keeps the row in sync exactly when it draws the same |
| Display.PlainKeySync | telnet/server.go:321-383 | a key keeps the row in sync exactly when its edit does not drift |
| Display.NextOrdinary | telnet/session.go:906-917 | every step leaves printable text only |
| Display.MaskedEdits | telnet/server.go:426-480 | masked, runes go to the end of the line and come off it, and nothing of it is ever echoed |
| DisplayRows.AsyncRows | telnet/session.go:953-1001 | after an asynchronous write the rows above are those there were, exactly the lines of its message, whether it ends its last line or not, and the rows of a prompt that has several |
| DisplayRows.ErasedRows | telnet/session.go:972-984 | on a terminal that can erase, each line of the message is a row of its own and nothing else is on it |
| DisplayRows.PlainRows | telnet/session.go:965-971 | on one that cannot, only blanks follow the first line if the row was no wider than the terminal |
| DisplayRows.NoMessageLost | telnet/session.go:953-1001 | in any interleaving, wherever the message was sent: at the end its lines stand above, together and in order, behind the rows there were before it |
| DisplayRows.RunKeepsRows | telnet/session.go:841-1001 | no run changes a row that has gone up |
| DisplayRows.ListingRows | telnet/server.go:566-587 | the edited row goes up, the candidates stand below it line by line |
| DisplayRows.OutputRows | telnet/session.go:821-832 | output in lines goes up line by line, the first drawn where the cursor was |
| DisplayRows.BareEnterRows | telnet/session.go:862-873 | a bare Enter sends the row up, and nothing else but the rows of a prompt that has several |
| DisplayRows.StaysPut | telnet/server.go:321-383 | keys, completions, the bell, the mask, taking the line and caching send no row up |
| Sessions.RawIsNeverUtf8 | telnet/server.go:142-206 | the bytes taken raw are exactly those that occur in no UTF-8 text |
| Sessions.ClassifyInProgress | telnet/server.go:210-268 | the collector always holds a strict part of what its lead byte announced, at most three bytes |
| Sessions.CollectRune | telnet/server.go:229-268 | whatever was pending, the encoding of one rune inserts exactly that rune and leaves nothing pending |
| Sessions.StreamTypesText | telnet/server.go:142-268 | the same for every text: its runes, in order, and nothing else |
| Sessions.PerformTypes | telnet/server.go:448-480 | typed runes end up left of the cursor, in order, or at the end of the line while masked |
| Sessions.Session.DispatchByte | telnet/server.go:142-206 | one byte changes pending bytes and view as the collector says; a byte UTF-8 never uses makes the buffer malformed |
| Sessions.Session.ReadBytes | telnet/server.go:57-77 | a stretch of bytes of text and control keys performs exactly what the collector makes of it; the buffer stays well formed, the cursor on a rune boundary and the pending count at most three |
| Sessions.Session.ReadStream | telnet/server.go:57-77 | any stream, with telnet commands, arrow keys, history, Tab and Enter in it, performs exactly the steps that its inputs make one after the other and hands over exactly its lines; if the steps meet their conditions the row is in sync at the end |
| Sessions.Session.ReadInput | telnet/server.go:142-206 | one input performs exactly its step or steps, hands over its line, and leaves the pending bytes a strict part of a sequence |
| Sessions.PlainStream | telnet/server.go:57-77 | bytes of text and control keys in front of a stream do what the collector makes of them |
| Sessions.EnterHandsOver | telnet/server.go:57-424 | whatever was pending, a text typed into a line and Enter hand over exactly the line with the text in it |
| Sessions.ControlKeys | telnet/server.go:163-206 | which control byte is which edit; all others of text do nothing |
| Sessions.KeyNames | telnet/server.go:321-365 | each motion and each kill is the edit of its name |
| Sessions.AfterBlankIs | telnet/server.go:515-521 | the partial word is what follows the last blank |
| Sessions.TabCompletes | telnet/server.go:491-541 | a completion takes the place of the partial word; masked, inside the line or without an offer the bell rings |
| Sessions.Session.ReadText | telnet/server.go:57-77 | typing a text into any session puts exactly it left of the cursor, or at the end while masked |
| Sessions.Session.CollectLead | telnet/server.go:229-233 | a lead byte restarts the collector |
| Sessions.Session.CollectContinuation | telnet/server.go:239-268 | a continuation byte joins, completes or drops the sequence |
| Sessions.Session.BufferInput | telnet/server.go:448-460 | an ASCII byte is the insert step; a byte UTF-8 never uses makes the buffer malformed |
| Sessions.Session.BufferInputRune | telnet/server.go:466-480 | the rune is the insert step, masked or not |
| Sessions.Session.HandleBackspace | telnet/server.go:426-446 | the backspace step, masked or not |
| Sessions.Session.HandleMotion | telnet/server.go:321-344 | the motion step, or the bell when masked or nothing moves |
| Sessions.Session.HandleKill | telnet/server.go:346-365 | the kill step, or the bell |
| Sessions.Session.HandleHistoryStep | telnet/server.go:367-383 | the recalled line replaces the input, or the bell |
| Sessions.Session.HandleTab | telnet/server.go:491-541 | completes only at the end of the line, in the open and with an offer; else the bell |
| Sessions.Session.ExtendBuffer | telnet/server.go:547-564 | the partial word is replaced, in the buffer and on the row |
| Sessions.Session.ListAndRedraw | telnet/server.go:566-587 | the listing step; an empty prompt is not cached |
| Sessions.Session.SnapshotEcho | telnet/session.go:929-935 | what is repainted is the input, or one star per rune |
| Sessions.Session.WriteAsync | telnet/session.go:953-1001 | the asynchronous step |
| Sessions.Session.WriteBareEnter | telnet/session.go:862-873 | the bare Enter step |
| Sessions.Session.HandleLineBreak | telnet/server.go:385-424 | a line is handed over whole, the buffer emptied and CRLF put out; an empty line only repaints |
| Sessions.Session.WritePrompt | telnet/session.go:841-856 | the prompt step: what is written is what is cached |
| Sessions.Session.CacheLastPrompt | telnet/session.go:879-883 | the caching step: the prompt is cached and nothing written |
| Sessions.Session.ClearLastPrompt | telnet/session.go:888-892 | the same with no prompt |
| Sessions.Session.SetPasswordMode | telnet/session.go:921-925 | the mask step: the mask is set, buffer and row are left as they were |
| Sessions.Session.DispatchIac | telnet/server.go:142-150 | a telnet command drops pending bytes; an escaped IAC makes the buffer malformed |
| CoinLedger.CoinConserved | internal/cmd/inventory.go:116-150 | over every schedule and every failure, purses, accounts, floor piles and coin in flight keep their total |
| CoinLedger.PursesExplained | internal/cmd/banker.go:164-176 | every purse and account is what it was plus exactly what each command says it did: no write is lost |
| CoinLedger.ItemsExplained | internal/cmd/inventory.go:116-150 | an item is still there or exactly one command deleted it |
| CoinLedger.SettledMoney | internal/cmd/inventory.go:424-479 | when all commands have ended without a failed rollback, the money is what it was plus what shops paid for completed sales |
| CoinLedger.DeletedOnce | internal/cmd/shop.go:383-409 | an item is sold or picked up by at most one command, and is gone then |
| CoinLedger.SaleAllOrNothing | internal/cmd/shop.go:383-409 | in the stores, an ended sale put the price in the seller's purse and deleted the item, or did neither, except where the rollback failed; all else in purse and item is what the other commands did |
| CoinLedger.CommandAllOrNothing | internal/cmd/inventory.go:328-380 | in the stores any ended command moved exactly the amount asked for, from and to the rows it names, or nothing; only a failed rollback leaves it half done |
| CoinLedger.NeverNegative | internal/currency/currency.go:212-234 | over every schedule and every failure no purse, account or pile is ever negative or beyond 64 bits |
| CoinLedger.ChecksExactly | internal/cmd/inventory.go:424-446 | a command passes its checks exactly when the amount is positive, covered by the row it read, and within 64 bits on the other side |
| CoinLedger.RunAsks | internal/cmd/banker.go:155-250 | over every run no command moves any other amount than the one asked for |
| CoinLedger.AloneCompletes | internal/cmd/inventory.go:424-480 | left alone, a covered command completes, with exactly the rows it names changed by exactly that amount |
| CoinLedger.AloneRollsBack | internal/cmd/inventory.go:116-150 | left alone, a covered command whose second write fails is rolled back: purses, accounts and items are as before |
| CoinLedger.SecondWriteFails | internal/cmd/inventory.go:116-150 | a second write that fails leaves the stores alone and is followed by the undoing of the first |
| CoinLedger.FailureTouchesNothing | internal/cmd/inventory.go:116-150 | a call that fails changes no store |
| CoinLedger.RollbackExact | internal/cmd/shop.go:394-409 | the compensating write restores the purse exactly when the version is still the one the first write left |
| CoinLedger.StepTotal | internal/cmd/inventory.go:328-382 | each store call conserves the total |
| CoinLedger.StepInv | internal/cmd/banker.go:228-240 | each store call keeps: a row at the version read still holds what was read |
| CoinLedger.NewItemsArePiles | internal/cmd/inventory.go:328-382 | commands create no rows but coin piles |
| Walks.GraftAcyclic | internal/cmd/container.go:107-123 | linking c under d keeps every walk ending when no walk from d meets c |
| Walks.GraftExactly | internal/cmd/follow.go:51-54 | and only then |
| Walks.NoReturn | internal/cmd/follow.go:90-110 | in a walk that ends nobody meets itself |
| Walks.CutAcyclic | internal/cmd/follow.go:78-84 | unlinking keeps every walk ending |
| Walks.RemoveAcyclic | internal/cmd/follow.go:90-110 | so does taking somebody out |
| ItemForest.DepthOf | internal/cmd/container.go:88-102 | the walk of twelve steps gives the true depth of anything that deep or less |
| ItemForest.IsAncestor | internal/cmd/container.go:107-123 | the walk of twelve steps finds exactly the ancestors within twelve, so all of them on a chain that short |
| ItemForest.CanPut | internal/cmd/container.go:147-197 | each verdict on any forest, in terms of the unbounded ancestor relation, depth and capacity: exactly one reason, the first that applies |
| ItemForest.FitsExactly | internal/cmd/container.go:171-194 | the gates in numbers: three levels or the container's own cap, and no more real weight than its capacity, if it has one |
| ItemForest.PutIsForest | internal/cmd/inventory.go:691-759 | re-parenting without a cycle leaves a forest |
| ItemForest.PutKeepsShallow | internal/cmd/inventory.go:691-759 | an allowed put keeps the forest acyclic and no deeper than three |
| ItemForest.ChainBelow | internal/cmd/container.go:74-83 | no chain below an item is longer than its depth below |
| ItemForest.DeepestChain | internal/cmd/container.go:74-83 | and some chain is that long, so what is refused as too deep would be |
| ItemForest.PutWeightOn | internal/cmd/container.go:35-69 | every container above the destination gains the weight put in times the multipliers between |
| ItemForest.PutContentsOff | internal/cmd/container.go:35-69 | every other container's contents are unchanged |
| ItemForest.PutCapacityExactly | internal/cmd/container.go:147-197 | a put keeps every capacity if and only if there is room all the way up |
| ItemForest.RootPutKeepsCapacities | internal/cmd/inventory.go:691-759 | for a top-level destination the check made is enough |
| ItemForest.NestedPutOverfills | internal/cmd/container.go:147-197 | for a nested destination, which no put command passes, it would not be: a box, a bag in it and a stone that passes every check |
| ItemForest.PutCarried | internal/cmd/inventory.go:608-614 | carried weight changes by exactly (load - 1) times the child's weight, the load being the product of the multipliers up to the root |
| ItemForest.RootPutCarried | internal/cmd/inventory.go:911-924 | for a top-level destination by exactly (multiplier - 1) times the child's weight |
| ItemForest.RootPutFelt | internal/cmd/inventory.go:911-924 | so by (weightMult - 1) times the child's felt weight where the container has a positive weightMult, and not at all where it has none |
| ItemForest.FeltWeight | internal/cmd/container.go:35-44 | an item feels as its own weight, once and unmultiplied, plus its weightMult times the felt weights of what lies directly in it |
| ItemForest.RealContents | internal/cmd/container.go:53-69 | real weight is an item's own and that of what lies in it |
| ItemForest.CarriedOne | internal/cmd/inventory.go:608-614 | carrying one thing weighs what it weighs with all that is in it, carrying none nothing |
| ItemForest.PutKeepsRawWeight | internal/cmd/container.go:53-69 | raw weight over all roots is unchanged by every put |
| ItemForest.EffectiveAtMostRaw | internal/cmd/container.go:35-69 | felt weight never exceeds raw weight when no multiplier exceeds 1 |
| PutRuns.StepExactly | internal/cmd/inventory.go:740-759 | checks and takings-out keep the items a forest and every capacity; a transfer does exactly when, as things are then, it closes no circle and there is room all the way up |
| PutRuns.RunExactly | internal/cmd/inventory.go:691-759 | over every interleaving no container is ever overfull exactly when every transfer was safe where it happened |
| PutRuns.CalmRunKeepsCapacities | internal/cmd/inventory.go:691-759 | in every interleaving where nobody else touches a session's item or container between its check and its transfer, none is |
| PutRuns.TwoPutsOverfill | internal/cmd/inventory.go:740-759 | two sessions that are both checked before either transfers overfill a chest |
| PutRuns.TakeOutLightens | internal/repo/item_sqlite.go:384-397 | taking something out leaves no container fuller |
| PutRuns.StepsDo | internal/repo/item_sqlite.go:365-397 | a transfer and a taking-out move the one item they name, a check none |
| ItemForest.VisitKids | internal/cmd/inventory.go:945-957 | one item's unseen contents join the result and the next frontier |
| ItemForest.TransitiveContainerView | internal/cmd/inventory.go:933-961 | on any data, cycles included, exactly what is reachable, each once, never the container itself; it fails exactly when something in it cannot be listed |
| Following.IntroducesFollowCycle | internal/cmd/follow.go:90-110 | the bounded loop reports exactly the walks that meet the follower or outlast the bound |
| Following.UntangledNeverMeets | internal/cmd/follow.go:90-110 | a leader it passes never leads back to the follower, at any distance |
| FollowRuns.PassesExactly | internal/cmd/follow.go:90-110 | read one link at a time and undisturbed, the check gives the verdict of the bounded walk |
| FollowRuns.StepExactly | internal/cmd/follow.go:19-84 | connects, disconnects, unfollows and readings keep the graph acyclic; writing a link does exactly when the leader's walk, as it is then, does not meet the follower |
| FollowRuns.TwoChecksThenTwoWrites | internal/cmd/follow.go:51-54 | two sessions that are both checked before either writes end up following each other |
| FollowRuns.StepsDo | internal/session/registry.go:81-89 | connects, disconnects and unfollows change one character's link and nobody else's |
| FollowRuns.RunExactly | internal/cmd/follow.go:19-110 | over every interleaving the graph is acyclic throughout exactly when every write of a link was safe where it happened |
| FollowRuns.CalmRunStaysAcyclic | internal/cmd/follow.go:19-110 | in every interleaving where nobody on the way of a check gets a new link before that session writes its own, nobody ends up following themselves, at any distance |
| Following.Party.DoFollow | internal/cmd/follow.go:19-62 | the follow command when nobody acts in between: refused exactly when it would tangle |
| Following.Party.ClearFollow | internal/cmd/follow.go:78-84 | the unfollow step |
| Following.Party.FollowAlong | internal/cmd/move.go:211-298 | a follower who may pass is in the leader's room, any other stops following |
| Following.MayPassExactly | internal/cmd/move.go:211-330 | what stops a follower, and that nothing else does |
| Following.Party.ChainFollowers | internal/cmd/move.go:173-204 | run by itself, on any follow graph, circles included, each level going through the sessions in an order of its own: exactly the co-located transitive followers within the depth are asked; those who can pass end in the leader's room, each moved once, the others stop following, nobody else is touched |
| Following.OneTop | internal/cmd/move.go:173-204 | even in a circle nobody is asked through two direct followers, nor at two distances |
| Wrapping.WholeStands | telnet/wrap.go:162-203 | a complete escape is taken as it is, whatever follows it |
| Wrapping.WholeStandsInBytes | telnet/wrap.go:162-203 | so are its bytes: the limit counts bytes, and no rune of it is torn, an OSC with runes beyond ASCII included |
| Wrapping.CutOff | telnet/wrap.go:162-203 | an escape that does not end within 64 bytes is as long as that, or as the text; ESC and any other byte are one |
| Wrapping.SkipAnsi | telnet/wrap.go:162-203 | on any bytes, the end of the escape at i: CSI, OSC, two bytes, or the limit |
| Wrapping.SplitAtWidth | telnet/wrap.go:133-157 | the head is the longest prefix within the width, or one rune |
| Wrapping.TrimTrailingSpace | telnet/wrap.go:205-212 | one trailing space goes, nothing else |
| Wrapping.WrapText | telnet/wrap.go:27-114 | ends on every input; with complete escapes the result has lines within the width but for one over-wide rune alone, the same runes and escapes in the same order, and is the reflow the next rows speak of |
| Wrapping.WrappedLinesFit | telnet/wrap.go:27-114 | at every point of every line the width holds, but for one over-wide rune alone |
| Wrapping.WrappedKeepsEssence | telnet/wrap.go:27-114 | nothing but white space is lost, added or moved |
| Wrapping.RewrapExactly | telnet/wrap.go:27-114 | wrapping the result again changes nothing if and only if the text has no over-wide rune that is met at column 0 right behind a word, a CR between them being dropped; that is if and only if no over-wide rune put out follows a rune of the same word |
| Wrapping.WrappedApart | telnet/wrap.go:48-52 | without a CR in the text none does |
| Wrapping.WrapIsIdempotent | telnet/wrap.go:27-114 | so one pass settles every text without CR, and every text without a rune wider than the width |
| Wrapping.WideRuneNotIdempotent | telnet/wrap.go:48-52 | with an over-wide rune and a CR it need not: a concrete input |
| Wrapping.UnchangedExactly | telnet/wrap.go:27-114 | any text is left as it is if and only if its lines are in order, it holds no TAB and no CR, and its over-wide runes are words of their own |
| Wrapping.NewlinesStand | telnet/wrap.go:43-47 | a newline of the text stays and the two sides are wrapped each by itself |
| WrapLayouts.WrappedIsLayout | telnet/wrap.go:27-114 | unit by unit: TABs become spaces, CRs go, all else stays, and at a break one newline comes in and one blank goes or none; every break had to be: with the blank and the next word, or inside a cut word with the next rune, the line would have been too wide |
| Wrapping.WrappedReadsBack | telnet/wrap.go:162-203 | the result is read back as the very units put out, no escape torn or merged |
| Tokenizer.Tokenize | telnet/tokenize.go:19-86 | the loop computes the tokens the theorems below are about, or fails on an open quote |
| Tokenizer.SplitOnSemicolon | telnet/tokenize.go:98-152 | the loop computes the segments the theorems below are about, or fails |
| Tokenizer.CompletionPartial | telnet/tokenize.go:160-207 | the loop computes the partial word and whether a quote is open |
| Tokenizer.ScannersAgree | telnet/tokenize.go:19-207 | tokenizing fails exactly when splitting fails and exactly when completion reports an open quote |
| Tokenizer.SegmentsStandAlone | telnet/tokenize.go:98-152 | every segment is not empty, tokenizes, and splits into itself alone |
| Tokenizer.SegmentsRoundTrip | telnet/tokenize.go:98-152 | segments joined by semicolons come back as they were |
| Tokenizer.CompletionDecomposes | telnet/tokenize.go:160-207 | a balanced buffer is a head and the partial word, which starts with no blank and is the buffer's last token alone; the partial is empty exactly when the buffer is or ends in an unescaped blank |
| Tokenizer.CompleterSlot | internal/cmd/keyword.go:140-150 | the slot is the number of tokens before the one being typed |
| Tokenizer.WrittenLine | telnet/tokenize.go:19-86 | a line of words, each written in any mixture of bare characters, backslashes, single and double quotes, with any blanks around them, tokenizes to exactly what the words stand for, the escapes of double quotes included |
| Tokenizer.OpenQuoteFails | telnet/tokenize.go:80-83 | with a quote left open behind it, it does not tokenize |
| Tokenizer.PlainWords | telnet/tokenize.go:54-57 | words without blank, quote or backslash, joined by blanks, are the tokens |
| Tokenizer.ChunksSplit | telnet/tokenize.go:98-152 | a line is cut at the semicolons outside quotes and escapes, the white space around each segment goes, empty segments are dropped |
| Tokenizer.RenderRoundTrip | telnet/tokenize.go:19-86 | so every token list, of any characters, is recovered from a way to write it |
| CommandRegistry.PrefixBlock | telnet/command.go:237-252 | what lies between a prefix and a name with it has the prefix |
| CommandRegistry.PrefixIsBlock | telnet/command.go:237-252 | the names with a prefix are one block from its lower bound |
| CommandRegistry.FindNameAt | telnet/command.go:173-182 | the entry at the lower bound is what a scan from the front finds |
| CommandRegistry.AddedValid | telnet/command.go:106-136 | an accepted command keeps names strictly increasing and aliases leading to live commands that list them |
| CommandRegistry.RemovedValid | telnet/command.go:149-171 | so does taking a command out |
| CommandRegistry.AddThenRemove | telnet/command.go:106-171 | registering and then unregistering restores the registry |
| CommandRegistry.AddedFinds | telnet/command.go:106-136 | a registered command is found under each of its words; every other word finds what it found before |
| CommandRegistry.RemovedFinds | telnet/command.go:149-171 | a command taken out is found under none of its words; every other word finds what it found before |
| CommandRegistry.ResolveExactly | telnet/command.go:187-206 | a word of a command is that command; any other is the one command whose name it starts; several are told, all and in order, and never resolved to one |
| CommandRegistry.ValidVerbIs | telnet/command.go:474-500 | a word fit for a registry is printable ASCII without a blank that lower-casing leaves alone |
| CommandRegistry.RunValid | telnet/command.go:95-171 | every registry reached is in order |
| CommandRegistry.Search | telnet/command.go:127-127 | halving finds the number of names below the one sought |
| CommandRegistry.Registry.Check | telnet/command.go:106-125 | passes exactly the commands whose words are all valid and all free; a bad word is told before a taken one |
| CommandRegistry.Registry.Register | telnet/command.go:106-136 | refused exactly for a bad or taken word and then nothing changes; else the command is inserted in place with its aliases |
| CommandRegistry.Registry.Unregister | telnet/command.go:149-171 | takes out the command of that name and every alias leading to it |
| CommandRegistry.Registry.LookupExactLocked | telnet/command.go:173-182 | alias map and halving find what alias and a scan would |
| CommandRegistry.Registry.PrefixLocked | telnet/command.go:237-252 | the block read equals filtering the whole list |
| CommandRegistry.Registry.Lookup | telnet/command.go:187-206 | resolution equals the naive one: alias, exact name, unique prefix, else unknown or ambiguous |
| MapSurvey.ExploreMap | internal/cmd/map.go:195-317 | ends on any world; places and rooms match one to one within the depth, edges are permitted exits of open rooms, and nothing reachable is left out without a reason; it fails only where the list of an open placed room, or a room that one of its exits adds next, cannot be read |
| MapSurvey.ExpandRoom | internal/cmd/map.go:215-315 | a room's exits are all dealt with, and no more remains to do than before |
| MapSurvey.FollowExit | internal/cmd/map.go:220-314 | one exit keeps the invariant and is settled: marked, drawn, too deep, a taken place, or a missing room |
| MapSurvey.PlacedInvariant | internal/cmd/map.go:277-313 | a new room keeps the two maps inverse, the distances, and every room entered by an edge |
| MapSurvey.WithEdgeInvariant | internal/cmd/map.go:236-259 | an edge to a placed room keeps the invariant, wherever that room stands |
| MapSurvey.AllExpanded | internal/cmd/map.go:211-216 | at the end every open placed room has been expanded |
| MapSurvey.RouteTo | internal/cmd/map.go:284-313 | every placed room is reached from the start through open rooms in at most depth steps |
| MapSurvey.Compass | internal/cmd/map.go:26-40 | north is up; the eight words of the compass give the eight neighbours, each once |
| MapSurvey.SketchTells | internal/cmd/map.go:277-313 | what a cell tells of its room: unknown only if it is off the map and that is respected, off the zone only if there is a boundary |
| MapSurvey.EdgesShowNothingHidden | internal/cmd/map.go:220-259 | no edge shows an exit that is to stay hidden, and none leaves a room that is unknown or off the zone |
| MapGrid.DrawGrid | internal/cmd/map.go:335-466 | the grid has the size of the smallest box, every glyph whole, and elsewhere what the edges leave |
| MapGrid.FindBox | internal/cmd/map.go:341-356 | the box holds every place and no side could be moved in |
| MapGrid.PlaceGlyph | internal/cmd/map.go:393-409 | exactly the three columns of the place change |
| MapGrid.PlaceConnector | internal/cmd/map.go:419-456 | exactly the spot half way between two neighbours changes, to the stroke of their slope |
| MapGrid.SpotIsNoGlyph | internal/cmd/map.go:419-456 | no connector stands on a glyph |
| MapGrid.SpotIsInside | internal/cmd/map.go:452-456 | no connector of two placed neighbours falls outside |
| MapGrid.SpotOfReverse | internal/cmd/map.go:419-456 | an exit and the exit back share one connector |
| MapGrid.SharedSpot | internal/cmd/map.go:419-456 | only crossing diagonals compete for a spot |
| MapGrid.InkExactly | internal/cmd/map.go:414-456 | a connector is drawn exactly where some edge between neighbours has its spot |
| MapGrid.SurveyEdgeShows | internal/cmd/map.go:195-466 | every edge between neighbours of a survey shows in its drawing |
| MapGrid.StrokeIs | internal/cmd/map.go:432-451 | a stroke lies as its edge does |
| MapGrid.GlyphShows | internal/cmd/map.go:391-409 | every place shows its glyph whole, four columns and two rows from the next |
| Subnegotiation.PayloadRoundTrip | telnet/iac.go:107-143 | an escaped payload comes back whole and exactly consumed up to 4096 bytes; above, it is refused with exactly the rest left |
| Subnegotiation.ReadIsInverse | telnet/iac.go:107-143 | whatever is accepted was an escaped payload within the limit, closed by IAC and a byte other than IAC |
| Subnegotiation.FrameRoundTrip | telnet/iac.go:78-143 | reading a frame gives its option and payload and leaves what follows, or fails as too long exactly above the limit |
| Subnegotiation.ReadSubnegotiation | telnet/iac.go:107-143 | the reading loop consumes and answers as that reading function |
| Subnegotiation.ReadIac | telnet/iac.go:78-105 | every command after a leading IAC, with what it consumes |
| Subnegotiation.AppendField | telnet/session.go:458-467 | appends with IAC doubled |
| Subnegotiation.EncodeMssp | telnet/mssp.go:24-47 | the frame of the variables' payload |
| Subnegotiation.EncodeGmcpFrame | telnet/session.go:444-467 | the frame of package name, blank and body |
| Subnegotiation.IndexSpace | telnet/iac.go:261-268 | the first blank |
| Subnegotiation.SplitGmcp | telnet/iac.go:237-257 | the payload cut at its first blank, or the name alone with a null body |
| Subnegotiation.SplitIsUnique | telnet/iac.go:237-257 | there is one way to cut a payload at its first blank |
| Subnegotiation.GmcpRoundTrip | telnet/session.go:444-467 | a package sent and read comes back as it was if and only if its name has no blank, within the limit |
| Subnegotiation.VarsRecoverable | telnet/mssp.go:10-35 | variables without framing bytes are determined by their block |
| Subnegotiation.VarsLayout | telnet/mssp.go:24-47 | each name stands behind a 1 and its value behind a 2, in the order of the list |
| Subnegotiation.FrameBytes | telnet/session.go:444-467 | the frames in the numbers of RFC 854 |
| Subnegotiation.CommandMeanings | telnet/iac.go:78-105 | which bytes after IAC are a literal, an option negotiation, or no more than themselves |
| FloodGates.SpentBound | telnet/flood.go:61-81 | in any stretch of any run, at most burst + rate * time goes through |
| FloodGates.RunValid | telnet/flood.go:61-81 | over every run, under any clock, tokens stay between 0 and the burst |
| FloodGates.GrantedExactly | telnet/flood.go:61-81 | a request within the burst is granted from exactly (n - tokens) / rate idle seconds on |
| FloodGates.NeverBeyondBurst | telnet/flood.go:61-81 | a request beyond the burst is never granted |
| FloodGates.AfterExactly | telnet/flood.go:61-81 | a grant takes exactly what was asked for, a refusal takes nothing, and tokens come in at the rate up to the burst |
| FloodGates.NewFloodGate | telnet/flood.go:39-51 | no gate exactly for a rate or burst that is not positive; else a full one |
| FloodGates.FloodGate.Allow | telnet/flood.go:61-81 | the bucket and the verdict after one request |
| FloodGates.Allow | telnet/flood.go:61-64 | without a gate everything passes |
| AffectList.Apply | internal/affects/affects.go:180-197 | replaces the entry of that source and name where it stands, or appends after evicting at the cap |
| AffectList.EvictForName | internal/affects/affects.go:203-228 | at the cap the first of the shortest-lived entries of the name goes, and only that |
| AffectList.AppliedKeeps | internal/affects/affects.go:180-228 | keys stay distinct, no name grows past the cap, and the new entry is there |
| AffectList.Tick | internal/affects/affects.go:146-161 | the survivors one tick older and the expired zeroed, both in order |
| AffectList.SurvivesExactly | internal/affects/affects.go:151-158 | an entry survives exactly with more than one tick left, or with the least 32-bit duration, which wraps |
| AffectList.TickPartitions | internal/affects/affects.go:146-161 | every entry goes to exactly one of the two lists |
| AffectList.SurvivorComesFrom | internal/affects/affects.go:146-161 | survivors come in the order of the list |
| AffectList.ExpiredComesFrom | internal/affects/affects.go:146-161 | so do the expired, with nothing left to run |
| AffectList.RunKeeps | internal/affects/affects.go:146-228 | in every run (source, name) pairs stay distinct with at most four entries a name |
| AffectList.GoneExactly | internal/affects/affects.go:146-161 | d ticks clear a list if and only if all of it lasts at most d and nothing holds the least 32-bit duration |
| AffectList.RunGone | internal/affects/affects.go:146-228 | after any run that applied nothing longer than d, nor the least 32-bit duration, d ticks clear the list |
| AffectList.ApplyTickEffects | internal/affects/tick_effect.go:26-53 | the loop folds the effects as the functions below, in 32-bit and 16-bit words |
| AffectList.TickEffectsExactly | internal/affects/tick_effect.go:26-53 | hit points stay in range, and are the old ones plus the event deltas if and only if no effect carries them past the largest word |
| AffectList.EventsChain | internal/affects/tick_effect.go:36-51 | then each event starts where the last one ended and tells a real change |
| AffectList.EventComesFrom | internal/affects/tick_effect.go:36-51 | each event has the name and the effect of an affect that ticks, in the order of the list |
| AffectList.OneEffect | internal/affects/tick_effect.go:26-53 | one effect: hit points go by the damage, stop at 0 and at the ceiling, and a change is told if there is one |
| AffectList.LowCeilingFits | internal/affects/tick_effect.go:33-40 | a ceiling one largest heal below the largest word is enough for that |
| AffectList.HealThatKills | internal/affects/tick_effect.go:33-40 | at the largest ceiling a heal of one ends at 0 |

## Left out

- Sockets, deadlines, goroutines, logging, the SQLite stores, YAML, Lua, metrics: I/O, not part of this model. Stores appear through what their callers rely on.
- Locks: a section held under a lock is one atomic step. The interleavings are those of whole sections; where a command is taken whole without a lock, a line here says so.
- Right margin: the terminal row is unbounded; wrapping at the margin is not modelled. CSI sequences other than erase-to-end are taken to draw nothing.
- C1 control characters (U+0080 to U+009F): the collector inserts them, and the sync theorems leave lines that hold them out, since terminals differ in what they do.
- Rune width tables and grapheme clusters: width is an abstract function of the rune, additive over strings.
- Display.StepSync: the mask test of a Tab or of an arrow key is made before its section; a mask flipped between the two is not modelled.
- Display.PromptSync: over a row that is not fresh, the prompt's last line is text and sequences that draw nothing, as all prompts of the original are.
- Display.OutputSync: output is whole lines of anything and then text; a CR alone, BS or an erasure in the unfinished last line is not modelled.
- Arrow-key escapes, the CR LF look-ahead, the history ring and the choice of completion candidates: given to the handlers as parameters.
- Dropping of output by the flood gate is not joined to the terminal model: a dropped echo loses the row, by design of the original.
- LineBuffers.LineEdit.Backspace: on malformed bytes only the splice is stated, not the row, because the original does not promise one there.
- Sessions.Session.HandleTab: the row is stated for well-formed completions only.
- CoinLedger.CoinConserved: commands run as store calls, with the assumption that a failing call has no effect, that a conditional write needs the expected version and that deleting a missing row fails; the crash of the server between two calls is not modelled.
- NewBuy: it accepts lost revenue when the debit fails, so its coin is not conserved and it is not in the ledger.
- ItemForest.CanPut: weights are real numbers.
- PutRuns.RunExactly: the several list queries of one check are taken as one reading; items keep their weights and none is created or destroyed in a run.
- childrenOf: the index of children is replaced by sums over the list of items, in which order does not matter.
- Following.Party.ChainFollowers: a chain is taken by itself; moves and follows of other sessions while it runs are not interleaved; within one room, when the exit leads back to it, somebody in a circle can be asked more than once. Messages, events and rendering are left out.
- Following.Party.DoFollow: stated for a command that nobody disturbs; the interleavings are in `FollowRuns`.
- Wrapping.WrapText: text is a sequence of runes. Complete escapes are within the limit as bytes; ESC followed by a rune beyond ASCII is outside, since the original takes two bytes and tears it; escapes that are cut off or end in a space are outside, since a trailing space is trimmed inside them; malformed UTF-8 is outside.
- CommandRegistry.Registry.Lookup: lower-casing is that of ASCII, and commands are compared by value, not by identity.
- MapSurvey.ExploreMap: a store answers the same each time it is asked in one survey; a room comes back under the id it was asked for.
- MapGrid.DrawGrid: glyphs are three characters, as both callers give; cells are visited in any order, since the order has no effect; colour overlays and `emitRow` are presentation.
- Subnegotiation.EncodeGmcpFrame: the JSON encoder's output is a parameter; the handlers behind the other options are left out.
- FloodGates.SpentBound: tokens and time are real numbers, rounding of floats is left out; the clock must not go back within the run.
- AffectList.RunGone: durations above the least 32-bit word, as `AffectList.GoneExactly` shows to be needed; the modifiers an affect carries are not looked into.
- Combat, groups, quests, the world clock, currency parsing, help and score rendering, history, pager and the bad-input counter: not part of this model; most would add easy members only.
