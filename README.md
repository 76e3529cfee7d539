# cnm node engine, modelled in Dafny

This project models the node engine of `src/cnm.c`, using the capacities that `CNM/cnm.h`
defines. A node has an owner pointer and a parent link. It has a fixed array of 16 child slots
and six external lifecycle hooks. It also has a two-level signal table:

- 67 open-addressing signal slots;
- each signal slot owns 67 callback slots;
- slots are chosen by FNV-1a 64-bit modulo 67, and collisions are resolved by linear probing.

A node machine is a root node whose process and render hooks forward to a current state.

How each part is modelled:

- `Config`: the compile-time capacities.
- `CStrings`: NUL-terminated names, plus `strncmp(..., 64) == 0` and the truncating
  `strncpy` of 63 bytes followed by a NUL.
- `Fnv`: `_get_hash_key`. The function `HashKey` is the 64-bit fold, with `bv64` wrap-around
  standing in for `uint64_t`. The method `GetHashKey` is the accumulator loop, proved equal to
  `HashKey`.
- `OpenAddressing`: the probing scheme that the signal table and every callback table share.
  - It covers the probe, the bounded lookup, and the two insertions: add keeps an existing
    entry, and connect overwrites the payload.
  - The table invariant has three parts: no name is stored twice; every entry is reachable from
    its hash slot through in-use slots; and every key fits its buffer.
- `SignalBus`: add, connect and emit as functions on the table value.
  - Emit returns the ordered callbacks it would invoke, as (node, method) pairs.
  - Lemmas relate each operation to the lookup, to the invariant and to what emit returns.
- `BusScenarios`: whole call sequences on a fresh table.
- `Dispatch`: the six `_node_in_*` trampolines as traces of hook calls. Nodes live in an arena
  and are addressed by handles. A rank that decreases from parent to child guarantees that the
  child relation has no cycle.
- `Engine`: `struct node_t` as a class.
  - The child and signal arrays are updated in place by methods that mirror the C loops.
  - `AddSignal`, `ConnectSignal` and `EmitSignal` are proved equal to the `SignalBus`
    specification. The child methods state their new array and parent link directly.
- `NodeMachine`: `nm_node_machine_create` and the forwarding hooks.

Hooks and callbacks are opaque function names (`Methods.Fn`). Running one is recorded as a call
in a trace; its effects are not modelled.

## Model

| member | source | states |
|---|---|---|
| `CStrings.StrnEq` | src/cnm.c:205 | `strncmp(key, name, 64) == 0`: the two C strings agree on their first 64 bytes, or up to the terminator of either |
| `CStrings.Stored` | src/cnm.c:212-213 | the stored key is shorter than 64 bytes; it equals the name when the name is shorter than 64 bytes, and is the name's first 63 bytes otherwise |
| `CStrings.StrnEqStoredKey` | src/cnm.c:205 | for an accepted name (at most 64 bytes) and a stored key (under 64 bytes), the 64-byte `strncmp` reports a match exactly when the two are equal |
| `CStrings.LongNameNeverMatchesItsKey` | src/cnm.c:198-213 | a 64-byte name passes the length check but never matches its own truncated stored copy |
| `Fnv.Round` | src/cnm.c:430-431 | one step of the hash loop: xor the byte into the accumulator, then multiply by the FNV prime modulo 2^64 |
| `Fnv.Fold` | src/cnm.c:429-432 | the accumulator after the loop has consumed the given bytes, first byte first |
| `Fnv.FoldAppend` | src/cnm.c:429-432 | folding two byte strings in a row is folding their concatenation (xor then multiply, modulo 2^64, per byte) |
| `Fnv.ReadLength` | src/cnm.c:429 | the hash reads at most 64 bytes, none of them NUL, and stops at the first NUL, at 64 bytes or at the end |
| `Fnv.HashKey` | src/cnm.c:423-434 | the slot of a name is below 67 |
| `Fnv.GetHashKey` | src/cnm.c:423-434 | the accumulator loop that starts from the FNV offset basis returns the fold of the bytes it reads, modulo 67 |
| `Fnv.HashKeyOfName` | src/cnm.c:429-434 | a name of at most 64 bytes is hashed over all of its bytes |
| `Fnv.HashKeyIgnoresUnread` | src/cnm.c:429 | bytes after the point where reading stops do not change the slot |
| `Fnv.HashKeyStopsAtTerminator` | src/cnm.c:429 | bytes after a name's NUL terminator do not change its slot |
| `OpenAddressing.ProbeFrom` | src/cnm.c:204-210 | the probe stops at the first slot that is unused or holds the name, and passes only slots that do neither |
| `OpenAddressing.Probe` | src/cnm.c:204-210 | the number of steps the add probe takes from the name's hash slot before it stops; 67 when it would pass every slot |
| `OpenAddressing.Stop` | src/cnm.c:250-259 | the slot where the unbounded probe ends, which is unused or holds the name |
| `OpenAddressing.Find` | src/cnm.c:230-242 | the bounded lookup returns a slot only if it holds the name; it returns nothing only after meeting an unused slot or a full lap of 67 slots |
| `OpenAddressing.Claim` | src/cnm.c:204-217 | add changes at most the slot where its probe stops |
| `OpenAddressing.Upsert` | src/cnm.c:250-267 | connect's insertion changes at most the slot where its probe stops |
| `OpenAddressing.Empty` | src/cnm.c:108 | a zeroed table has no slot in use, and every probe on it stops at once |
| `OpenAddressing.PosNext` | src/cnm.c:209 | `(key + 1) % 67` is the next position of the probe |
| `OpenAddressing.ProbePasses` | src/cnm.c:204-210 | a slot before the stop that is in use with another name moves the probe on |
| `OpenAddressing.ProbeStopsAt` | src/cnm.c:204-207 | the first slot that is unused or holds the name is where the probe stops |
| `OpenAddressing.EmptyValid` | src/cnm.c:108 | a zeroed table satisfies the invariant |
| `OpenAddressing.FindsPresent` | src/cnm.c:230-242 | in a valid table every stored key is found in its own slot |
| `OpenAddressing.FindCorrect` | src/cnm.c:230-242 | for an accepted name, the lookup succeeds exactly when the name is stored, and the slot it returns holds that name |
| `OpenAddressing.ProbeStopsAtHolder` | src/cnm.c:204-207 | a probe for a stored name stops at that name's slot |
| `OpenAddressing.InsertKeepsValid` | src/cnm.c:212-217 | storing an absent name in the unused slot where its probe stopped keeps the invariant |
| `OpenAddressing.ReplaceKeepsValid` | src/cnm.c:252-253 | replacing the payload of an in-use slot keeps the invariant |
| `OpenAddressing.ClaimPresent` | src/cnm.c:204-207 | adding a name that is already stored changes nothing |
| `OpenAddressing.ClaimAbsent` | src/cnm.c:204-217 | adding a new name claims the first unused slot on its probe path; every slot before it on the path is in use |
| `OpenAddressing.ClaimKeepsValid` | src/cnm.c:197-219 | add keeps the invariant for names under 64 bytes |
| `OpenAddressing.UpsertKeepsValid` | src/cnm.c:248-269 | connect's insertion keeps the invariant for names under 64 bytes |
| `OpenAddressing.ClaimThenFind` | src/cnm.c:204-242 | after an add, the lookup finds the name in the slot where the add's probe stopped |
| `OpenAddressing.UpsertThenFind` | src/cnm.c:250-267 | after connect, the name is found and its slot holds the new payload |
| `OpenAddressing.ClaimIdempotent` | src/cnm.c:204-207 | adding the same name twice: the second add changes nothing |
| `OpenAddressing.UpsertPresent` | src/cnm.c:250-256 | reconnecting a stored name overwrites that slot's payload and occupies no other slot |
| `OpenAddressing.StopHolds` | src/cnm.c:204-210 | the probe of an accepted name stops at an in-use slot exactly when the name is stored |
| `OpenAddressing.InsertKeepsOtherLookups` | src/cnm.c:212-217 | storing one name leaves the lookup of every other name unchanged |
| `OpenAddressing.ClaimKeepsOtherLookups` | src/cnm.c:197-219 | add leaves every other name's lookup unchanged |
| `OpenAddressing.UpsertKeepsOtherLookups` | src/cnm.c:248-269 | connect's insertion leaves every other callback name's lookup unchanged |
| `OpenAddressing.ProbeStopsIfFree` | src/cnm.c:204-210 | any unused slot makes every probe stop within one lap |
| `OpenAddressing.ProbeNeverStopsWhenFull` | src/cnm.c:204-210 | when every slot is in use and none matches, the probe never stops |
| `OpenAddressing.ProbeFullLap` | src/cnm.c:204-210 | in a valid table, a probe runs a full lap exactly when every slot is in use and the name is absent |
| `OpenAddressing.ClaimKeepsKeysFit` | src/cnm.c:212-213 | every stored key stays shorter than the 64-byte buffer |
| `OpenAddressing.LongNameNeverFound` | src/cnm.c:235 | the lookup never finds a 64-byte name |
| `OpenAddressing.LongNameUpsertClaimsFree` | src/cnm.c:250-267 | connect's insertion of a 64-byte callback name never matches a stored key, so it claims an unused slot under the truncated key |
| `OpenAddressing.UpsertTwice` | src/cnm.c:250-256 | of two connects of the same name, the last wins |
| `SignalBus.EmptyBus` | src/cnm.c:108 | a zeroed signal table has the right shape |
| `SignalBus.AddSignal` | src/cnm.c:197-220 | add succeeds exactly when the name is at most 64 bytes; on failure the table is unchanged; the table keeps its shape |
| `SignalBus.AddSignalKeepsValid` | src/cnm.c:197-219 | add keeps both invariants at both levels |
| `SignalBus.AddSignalIdempotent` | src/cnm.c:204-207 | adding a signal twice: both calls succeed and the second changes nothing |
| `SignalBus.Connect` | src/cnm.c:222-270 | connect succeeds exactly when both names are at most 64 bytes and the signal is found; on failure nothing changes; otherwise only the matched signal's slot changes, and its key is kept |
| `SignalBus.ConnectKeepsValid` | src/cnm.c:222-270 | connect keeps both invariants at both levels |
| `SignalBus.ReconnectOverwrites` | src/cnm.c:250-256 | reconnecting a callback name overwrites only that slot's node and method |
| `SignalBus.Fired` | src/cnm.c:298-302 | the payloads of the in-use slots of a callback table, in ascending slot order: what the emit loop invokes |
| `SignalBus.UsedIndices` | src/cnm.c:298-299 | the in-use callback slots, each once, in strictly ascending order |
| `SignalBus.FiredInSlotOrder` | src/cnm.c:298-302 | emit invokes each in-use callback slot exactly once, in ascending slot order, and nothing else |
| `SignalBus.FiredNone` | src/cnm.c:298-299 | a callback table with no slot in use invokes nothing |
| `SignalBus.FiredInsert` | src/cnm.c:261-267 | filling an unused callback slot adds exactly that callback to what emit invokes |
| `SignalBus.FiredFillLast` | src/cnm.c:261-267 | filling the last callback slot, when unused, appends its callback to what emit invokes |
| `SignalBus.FiredReplace` | src/cnm.c:252-253 | overwriting an in-use callback slot replaces exactly that callback in what emit invokes |
| `SignalBus.Emit` | src/cnm.c:272-303 | emit invokes nothing when the name is over 64 bytes or the signal is not found; otherwise it invokes the callbacks of the in-use slots, in slot order |
| `SignalBus.ProbeIgnoresPayloads` | src/cnm.c:230-242 | the probe depends only on which slots are in use and on their keys |
| `SignalBus.ConnectKeepsLookups` | src/cnm.c:230-253 | after connect, every signal is found where it was before |
| `SignalBus.UpsertFires` | src/cnm.c:248-267 | connect's insertion adds one callback to what fires, or replaces the callback of the matched slot |
| `SignalBus.ConnectThenEmit` | src/cnm.c:222-302 | connecting a new callback name adds exactly that call to the signal's emit; reconnecting an existing name replaces its call |
| `SignalBus.ConnectNewThenEmit` | src/cnm.c:248-302 | connecting a callback name the signal does not hold adds exactly that one call to the signal's emit |
| `SignalBus.ConnectEmitsUpsert` | src/cnm.c:227-302 | after connect, the found signal emits what its callback table fires after the insertion |
| `SignalBus.ConnectLeavesOtherEmits` | src/cnm.c:222-270 | connect leaves what every other signal emits unchanged |
| `SignalBus.EmitUnregistered` | src/cnm.c:277-296 | emitting a signal that is not stored invokes nothing |
| `SignalBus.AddSignalThenEmit` | src/cnm.c:212-217 | a newly added signal emits nothing; re-adding a stored signal leaves its emit unchanged |
| `SignalBus.AddSignalLeavesOtherEmits` | src/cnm.c:197-219 | add leaves what every other signal emits unchanged |
| `SignalBus.Perform` | src/cnm.c:197-270 | any sequence of add and connect calls that returns leaves a table of the right shape |
| `SignalBus.PerformKeepsValid` | src/cnm.c:197-270 | any sequence of add and connect calls with names under 64 bytes keeps both invariants |
| `SignalBus.PerformAppend` | src/cnm.c:197-270 | running two call sequences one after the other is the same as running their concatenation |
| `SignalBus.ConnectLastWins` | src/cnm.c:250-256 | of two connects of the same callback name, the table ends as if only the last had happened |
| `SignalBus.LongSignalAcceptedButLost` | src/cnm.c:198-213 | a 64-byte signal name is accepted by add; connect and emit never find it afterwards, and adding it again claims another slot |
| `SignalBus.AddSignalHangsWhenFull` | src/cnm.c:204-210 | add never returns on a table whose slots all hold other names |
| `SignalBus.ConnectHangsWhenFull` | src/cnm.c:250-259 | connect never returns on a callback table whose slots all hold other names |
| `SignalBus.AddSignalChecked` | src/cnm.c:197-220 | corrected add: succeeds exactly when the name fits its buffer and the probe stops within one lap |
| `SignalBus.AddSignalCheckedFinds` | src/cnm.c:197-220 | the corrected add keeps the invariants; after it succeeds the name is found; it fails on a name that fits only when the table is full of other names |
| `SignalBus.LongCallbackConnectAdds` | src/cnm.c:223-269 | as written, each connect of a 64-byte callback name to a found signal claims a new slot and adds one call to the signal's emit |
| `SignalBus.LongCallbackConnectedTwice` | src/cnm.c:223-269 | as written, two connects of one 64-byte callback name both add a call: emit then calls both targets |
| `SignalBus.ConnectChecked` | src/cnm.c:222-270 | corrected connect: succeeds exactly when both names are under 64 bytes, the signal is found and the callback probe stops; on failure the table is unchanged |
| `SignalBus.CheckedAgrees` | src/cnm.c:222-270 | where both names are under 64 bytes and the probe stops, the corrected connect is the connect as written |
| `SignalBus.ConnectCheckedLastWins` | src/cnm.c:250-256 | with the corrected connect, two connects of the same callback name leave the table of the last alone, for every name |
| `BusScenarios.AddToFresh` | src/cnm.c:197-219 | adding a signal to a fresh table stores it with no callbacks at its hash slot, where it is found |
| `BusScenarios.FreshValid` | src/cnm.c:108 | a fresh signal table satisfies both invariants |
| `BusScenarios.AllFreeValid` | src/cnm.c:108 | a table with no slot in use is valid and holds no name |
| `BusScenarios.ConnectFirstCallback` | src/cnm.c:222-302 | the first callback connected to a signal makes its emit invoke exactly that callback |
| `BusScenarios.ConnectToFresh` | src/cnm.c:197-302 | add, then connect: emit invokes exactly the connected callback |
| `BusScenarios.AddConnectEmit` | src/cnm.c:197-302 | add a signal and connect one callback on a fresh node: emit invokes exactly that (node, method) |
| `BusScenarios.Reconnect` | src/cnm.c:250-256 | connecting the same callback name twice: emit invokes only the later node and method |
| `BusScenarios.LongCallbackReconnect` | src/cnm.c:222-302 | as written, on a fresh node, add a signal and connect one 64-byte callback name twice: both calls return and emit calls both targets |
| `BusScenarios.LongCallbackOnce` | src/cnm.c:248-269 | the first connect of a 64-byte callback name to an empty callback table leaves the second connect a free slot |
| `BusScenarios.OneName` | src/cnm.c:248-267 | a callback table holding one name is valid, has room for another name, and fires that name's callback alone |
| `BusScenarios.FiredOne` | src/cnm.c:298-302 | a table with exactly one slot in use fires exactly that slot's callback |
| `BusScenarios.ConnectSecondCallback` | src/cnm.c:248-302 | a second, different callback name makes emit invoke both callbacks, each once |
| `BusScenarios.SecondCallback` | src/cnm.c:197-302 | on a fresh node, two different callback names on one signal are both invoked, each once |
| `BusScenarios.TwoCallbacks` | src/cnm.c:197-302 | adding a signal twice and connecting two callback names: emit invokes both callbacks, each once |
| `BusScenarios.EmitOtherAfterAdd` | src/cnm.c:272-296 | after adding one signal, emitting any other name invokes nothing |
| `Dispatch.Trace` | src/cnm.c:335-405 | the calls of one `_node_in_*` trampoline at a node: its own hook for the event, if set, then each occupied child slot's dispatch, slots 0..15 in order |
| `Dispatch.Slots` | src/cnm.c:340-344 | the calls the child loop makes over slots lo..hi-1, in slot order |
| `Dispatch.SlotCalls` | src/cnm.c:341-344 | an empty slot makes no call; an occupied one makes the child's whole dispatch |
| `Dispatch.Run` | src/cnm.c:335-405 | a trampoline runs the node's own hook, then dispatches into the occupied child slots 0..15 in order |
| `Dispatch.Visit` | src/cnm.c:341-344 | one pass of a trampoline's child loop skips an empty slot and otherwise makes exactly the child's whole dispatch |
| `Dispatch.SlotsSplit` | src/cnm.c:340-344 | the child-slot loop over a range is the loop over its two halves, one after the other |
| `Dispatch.EmptySlotsSkipped` | src/cnm.c:341 | empty child slots contribute no calls |
| `Dispatch.SlotsAround` | src/cnm.c:340-344 | the child loop splits around any slot |
| `Dispatch.ChildDispatched` | src/cnm.c:340-344 | every occupied child slot is dispatched, as one contiguous block, whether or not the node has its own hook |
| `Dispatch.ChildrenInSlotOrder` | src/cnm.c:340-344 | a lower child slot's whole dispatch comes before a higher one's |
| `Dispatch.TraceSound` | src/cnm.c:335-405 | a dispatch runs only the hooks, for that event, of nodes at or below where it starts |
| `Dispatch.SlotsSound` | src/cnm.c:340-344 | the child loop runs only hooks of nodes strictly below the node |
| `Dispatch.TraceBelowRank` | src/cnm.c:335-345 | a dispatch never reaches a node of higher rank |
| `Dispatch.SlotsBelowRank` | src/cnm.c:340-344 | the child loop reaches only nodes of strictly lower rank |
| `Dispatch.OwnHookFirst` | src/cnm.c:336-338 | pre-order: a node's own hook runs first, and every later call is on a descendant |
| `Dispatch.TraceComplete` | src/cnm.c:335-405 | a dispatch runs the hook of every node at or below its start that has one |
| `Dispatch.Childless` | src/cnm.c:335-345 | a childless node's dispatch is its own hook alone |
| `Dispatch.TwoChildren` | src/cnm.c:383-393 | parent with childless children in slots 0 and 1: the parent's hook runs, then slot 0's, then slot 1's |
| `Dispatch.Lone` | src/cnm.c:90 | a single new node with empty child slots is a well-ranked arena |
| `NodeMachine.CreateMachine` | src/cnm.c:305-315 | the root is a new childless node with only the forwarding process and render hooks; all 16 state slots are empty; there is no current state |
| `NodeMachine.Forward` | src/cnm.c:407-421 | the machine's process and render hooks call nothing while there is no current state, and otherwise the current state's dispatch |
| `NodeMachine.MachineDispatch` | src/cnm.c:321-327 | machine process and render run the root's trampoline: the forwarder's calls, then the root's children in slot order |
| `NodeMachine.GetRoot` | src/cnm.c:329-331 | returns the machine's root |
| `NodeMachine.RootRunsForwarderFirst` | src/cnm.c:321-327 | machine process and render run the root's forwarder first; after it come the root's children |
| `NodeMachine.IdleMachineReachesOnlyRootSubtree` | src/cnm.c:407-421 | with no current state, machine process and render reach exactly the hooks of nodes strictly below the root |
| `NodeMachine.FreshMachineIsInert` | src/cnm.c:305-315 | a new machine's process, render and root init call nothing |
| `Engine.Node.Alloc` | src/cnm.c:84-104 | the new node has the given owner and hooks, a NULL parent, and 16 empty child slots |
| `Engine.Node.ClearSignals` | src/cnm.c:108 | every signal slot is unused |
| `Engine.Node.Create` | src/cnm.c:83-111 | a fresh node has the given owner and hooks, empty child slots, a NULL parent and an unused signal table; its init hook, if any, is called once, on a node with no children |
| `Engine.Node.GetOwner` | src/cnm.c:125-131 | returns the owner pointer, NULL included |
| `Engine.Node.GetParent` | src/cnm.c:177-183 | returns the parent link |
| `Engine.Node.GetChild` | src/cnm.c:185-195 | NULL for an index of 16 or more, otherwise that slot's content |
| `Engine.Node.GetParentOwner` | src/cnm.c:133-137 | the parent's owner |
| `Engine.Node.GetChildOwner` | src/cnm.c:139-147 | NULL for an index of 16 or more, otherwise the owner of the child in that slot |
| `Engine.Node.AddChild` | src/cnm.c:149-163 | fails and changes nothing when the index is 16 or more or the slot is occupied; otherwise stores the child, sets its parent link, and leaves other slots alone; `GetChild` then returns the child |
| `Engine.Node.RemoveChild` | src/cnm.c:165-175 | as written, never changes the child array |
| `Engine.Node.DetachChild` | src/cnm.c:165-175 | corrected removal: empties an in-range slot; `GetChild` then returns NULL |
| `Engine.Node.AddSignal` | src/cnm.c:197-220 | writes the signal table in place with the same result and table as `SignalBus.AddSignal` |
| `Engine.Node.ProbeSignals` | src/cnm.c:202-210 | the unbounded signal probe ends at the stop slot of the name |
| `Engine.Node.FindSignal` | src/cnm.c:227-246 | the loop bounded by 67 finds the signal exactly as `OpenAddressing.Find` does |
| `Engine.Node.ProbeCallbacks` | src/cnm.c:248-259 | the unbounded callback probe ends at the stop slot of the callback name |
| `Engine.Node.ConnectSignal` | src/cnm.c:222-270 | gives the same result and table as `SignalBus.Connect` |
| `Engine.Node.EmitSignal` | src/cnm.c:272-303 | invokes exactly the calls of `SignalBus.Emit`, in order |

## Left out

- `CNM/cnm_cpp.hpp` and `example/test.c` are not part of this model. They are a C++
  convenience layer over standard containers and a demo driver.
- `nm_node_destroy` and `nm_node_machine_destroy` only call `free`. Memory management is not
  modelled, and neither is the machine root that destroy leaks.
- The bodies of user hooks and callbacks are not modelled. A run is recorded as a (function,
  node) call in a trace. So side effects of a hook, and re-entrant emits or dispatches from
  inside a hook, are not modelled.
- Dispatch runs over an arena of nodes addressed by handles, not over the heap of `Engine.Node`
  objects.
  - The arena carries the same hooks and child slots.
  - `nm_node_process` and `nm_node_render` are `Dispatch.Run` with the process or render event.
  - The `_in_*` pointers always hold the trampolines, so the `!child->_in_x` test never skips a
    child. The model leaves that test out.
- The machine is modelled as a value over the arena, not as a class. No operation of the engine
  changes it after creation.
- The following are declared in `CNM/cnm.h` but defined nowhere, so there is nothing to model:
  `nm_node_remove_signal`, `nm_node_machine_get_core`, `nm_node_machine_add_node`,
  `nm_node_machine_remove_node` and `nm_node_machine_set_active_node`.
  - Without a removal operation, no in-use slot ever becomes unused again. The probe-chain
    invariant therefore never has to survive a deletion.
- Engine.Node.AddChild: requires that a successful call use index 0. Line 160 writes the parent
  link at `p_child[p_index]`, which is the child itself only for index 0; for any other index it
  writes out of bounds.
- Engine.Node.GetParentOwner: requires a parent. Without one, the C code dereferences NULL.
- Engine.Node.GetChildOwner: requires an occupied slot when the index is in range. For an empty
  slot, the C code dereferences NULL.
- Engine.Node.AddSignal: requires that the probe stops within one lap (`SignalBus.AddReturns`).
  On a table full of other names the C loop never ends; `SignalBus.AddSignalHangsWhenFull`
  states this.
- Engine.Node.ConnectSignal: requires that the callback probe stops within one lap
  (`SignalBus.ConnectReturns`), for the same reason.
- Engine.Node.Create: `malloc` leaves the signal table unspecified until line 108 zeroes it. The
  init dispatch is computed on a one-node arena that has no signal table, and the body runs it
  before zeroing the table. No contract records that order: the init hook's effects are not
  modelled, so nothing it could observe in the table is.
- `Methods.Fn` has no NULL value, so `SignalBus.Connect` and `Engine.Node.ConnectSignal` cannot
  be given a NULL `p_callback_method`. The C code accepts one at line 222 and emit would call it
  at line 301; that undefined behaviour is excluded by the type.
- Names are byte strings without NUL (`CStrings.CString`). Reads past an unterminated buffer are
  not modelled.
- `uint64_t` hash arithmetic is modelled exactly, with `bv64`. `uint16_t` child indices are
  modelled by `Config.u16`.

## Findings

| source | as written | input that shows it | evidently intended | confidence | as-written member | corrected member |
|---|---|---|---|---|---|---|
| src/cnm.c:170-174 | `if (p_parent->_child[p_index]) return;` returns early on an occupied slot, so the only slot ever written is an empty one, which gets NULL | any occupied slot, for example index 0 after a successful add: the child stays | empty an occupied slot (`if (!p_parent->_child[p_index]) return;`) | high, not executed | `Engine.Node.RemoveChild` | `Engine.Node.DetachChild` |
| src/cnm.c:198, 212-213, 205 | the length check `strlen > NM_CHAR_NAME` accepts 64-byte signal names, which are stored as 63 bytes plus NUL and compared over 64 bytes; callback names get the same check, truncation and comparison at lines 223, 261-262 and 251 (next row) | a signal name of 64 non-NUL bytes: add returns true; connect then returns false and emit does nothing; a second add claims another slot | reject names of 64 bytes or more (`>=`), so every accepted name fits its key buffer | high, not executed | `SignalBus.LongSignalAcceptedButLost` | `SignalBus.AddSignalChecked` |
| src/cnm.c:223, 251, 261-262 | connect's length check `strlen > NM_CHAR_NAME` accepts 64-byte callback names, which are stored as 63 bytes plus NUL and compared over 64 bytes, so a reconnect never finds its own slot | a signal just added to a fresh node and a callback name of 64 non-NUL bytes connected twice with different targets: both connects claim a slot and emit calls both targets, where a shorter name calls only the last | reject callback names of 64 bytes or more, so the last connect of a name wins for every accepted name | high, not executed | `SignalBus.LongCallbackConnectedTwice` | `SignalBus.ConnectChecked` |
| src/cnm.c:204-210 | the add probe has no bound | a node whose 67 signal slots all hold other names: add never returns | fail when a full lap finds neither the name nor an unused slot | medium, not executed | `SignalBus.AddSignalHangsWhenFull` | `SignalBus.AddSignalChecked` |
