# kyute's positional memoization cache, and its neighbours, in Dafny

This project models the core of kyute, a Rust UI library whose composable
functions memoize their results in a *positional cache*. Every composable call
is identified by a call key. The key is a hash of the caller's location, the
call's index and the two innermost keys on a call-key stack. The cache is a
flat table of slots: `StartGroup{key, group_key, len}`, `EndGroup`,
`Value{key, value}` and `Placeholder{key}`. A group map records, for every
group, its parent group and whether it is dirty.

During a run, a `CacheWriter` walks the table with a cursor `pos` and a stack
of open group starts. It finds the slot for a key among the siblings ahead of
the cursor, rotates it into place, inserts what is missing, and drops what the
run no longer reached when a group closes. The `Cache` facade builds `group`,
`changed`, `memoize` and `with_state` on top of the writer.

The modules follow the source files:

- `Wrappers`: `Result` (with a `Panic` case for Rust panics), `Option`, and the `u32`/`u64`/`i32` integer types with the casts the source uses.
- `CallKeys` (kyute/src/call_key.rs): `CallKeyStack` as a class over a `seq<u64>`, and `chain_hash` as a function of an abstract hasher.
- `SlotTable` (the data of kyute/src/cache.rs): `Slot`, `Group` and `CacheInner` (a class with `slots`, `groups` and `nextKey`). It also holds the table's shape, the sibling search, the group-key bookkeeping and invalidation.
- `CacheWriting` (`CacheWriter` in kyute/src/cache.rs): the writer as a class over a shared `CacheInner`, specified against a ghost *zipper* over the table's shape.
- `CacheFacade` (`Cache` in kyute/src/cache.rs): an explicit `CacheContext` object in place of the thread-local, and a `Cache` that holds the table between runs.
- `CacheCells` (kyute/src/cache_cell.rs): the single-entry memo cell.
- `Composition` (kyute/src/composition.rs): `CompositionSlot` and the `Composer` class over its entry table.
- `GapBuffers` (kyute/src/widget/gap_buffer.rs): the gap buffer over an `array`, and its two iterators as classes.
- `TextEditing` (kyute/src/widget/textedit.rs): `Selection`, the `TextEdit` editing operations, the focus and keyboard branches of its event handler, and `EditState`.
- `Flex` (kyute/src/widget/flex.rs): the `Axis` helpers.

**The writer's invariant.** `CacheWriter.Valid()` says two things. First, the
group map's keys are exactly the group keys of the `StartGroup` slots still in
the table (`KeysMatch`, a multiset equality). Parents are older than their
children, and every key is below the next fresh key. Second, the table's
*shape* splits around the cursor. Each slot has a shape: `Open(len)`, `Close`
or `Leaf`. The sequence of shapes is `Before(frames) + curLeft + curRight +
After(frames)`, where:
- `curLeft` and `curRight` are the well-nested items of the current group on
  either side of the cursor;
- each frame of an enclosing group records its start and its items on either
  side.

This invariant states the balance of groups and the span of closed groups. It
also captures the staleness of `len` in groups that are still open: those
groups have no shape constraint until `end_group` rewrites their length.

Every Rust panic (`unwrap`, `expect`, `assert!`, an index out of range, a
failed downcast) becomes a `Panic` result. The contract of each operation
listed below says exactly when it panics, and what it does when it does not.
The one exception is `CacheFacade.CacheContext.CompareArgs`, a step inside
`memoize`: it states only that its panics are among those of
`CacheFacade.CacheContext.MemoizeLookup`, which states both directions.

## Model

| member | source | states |
|---|---|---|
| `Wrappers.AsU32` | kyute/src/composition.rs:61 | an `as u32` cast keeps values below 2^32 and otherwise agrees with the value modulo 2^32 |
| `Wrappers.AsI32` | kyute/src/cache.rs:305 | an `as i32` cast of a `usize` keeps values below 2^31 and otherwise agrees modulo 2^32 |
| `Wrappers.WrappingSubI32` | kyute/src/cache.rs:305 | `i32` subtraction is exact when the difference fits, and otherwise agrees with it modulo 2^32 |
| `CallKeys.Below` | kyute/src/call_key.rs:30-41 | the entry `depth` places below the top of the stack, or 0 when the stack is not that deep |
| `CallKeys.ChainHashTopTwo` | kyute/src/call_key.rs:30-48 | the key depends only on the top two entries (missing entries count as 0) and on the location and index |
| `CallKeys.ChainHashIgnoresDeeper` | kyute/src/call_key.rs:30-48 | entries deeper than the top two never change the key |
| `CallKeys.CallKeyStack.constructor` | kyute/src/call_key.rs:26-28 | a new stack is empty |
| `CallKeys.CallKeyStack.Enter` | kyute/src/call_key.rs:49-53 | pushes exactly one key, the chain hash of the old stack, and returns it; `Current` then returns that key |
| `CallKeys.CallKeyStack.Exit` | kyute/src/call_key.rs:55-57 | pops one entry; on an empty stack it does nothing |
| `CallKeys.CallKeyStack.Current` | kyute/src/call_key.rs:59-61 | panics exactly when the stack is empty; otherwise returns the top key |
| `CallKeys.EnterExitRestores` | kyute/src/call_key.rs:49-57 | `enter` followed by `exit` restores the stack |
| `SlotTable.Shapes` | kyute/src/cache.rs:72-87 | the shape of each slot, index by index |
| `SlotTable.ForestConcat` | kyute/src/cache.rs:72-87 | well-nested runs of slots concatenate to a well-nested run |
| `SlotTable.ForestHead` | kyute/src/cache.rs:72-87 | a well-nested run starts with an item of `len` slots that is itself well nested, followed by a well-nested rest |
| `SlotTable.FindFrom` | kyute/src/cache.rs:255-282 | any index found lies in the searched range and holds a `StartGroup` or `Value` with the key |
| `SlotTable.FindFromFirst` | kyute/src/cache.rs:255-282 | the search over a run of whole items returns the first sibling item with the key, never an index inside a nested group, and finds one whenever such a sibling exists |
| `SlotTable.StartKeysConcat` | kyute/src/cache.rs:103-107 | the group keys held by a table are those of its parts |
| `SlotTable.CacheInner.StartKeyLive` | kyute/src/cache.rs:103-107 | in a consistent table, the group key of every `StartGroup` slot is in the group map |
| `SlotTable.RemoveDeadKeys` | kyute/src/cache.rs:389-396 | erasing the keys of the drained slots keeps the map matching the remaining table |
| `SlotTable.MarkDirty` | kyute/src/cache.rs:153-163 | invalidation keeps the map's keys and parent links |
| `SlotTable.MarkDirtyMarksChain` | kyute/src/cache.rs:153-163 | afterwards a group is dirty iff it was dirty or lies on the parent chain from the target; a missing target changes nothing |
| `SlotTable.CacheInner.constructor` | kyute/src/cache.rs:110-129 | the fresh table is `[StartGroup(CallKey(0), root, 2), EndGroup]` with a clean parentless root group, and is well formed |
| `SlotTable.CacheInner.Invalidate` | kyute/src/cache.rs:132-134 | marks the token's group and its ancestors dirty, keeping the table consistent |
| `SlotTable.CacheInner.InvalidateGroup` | kyute/src/cache.rs:153-163 | the recursive marking along `parent` links; a removed group is a no-op |
| `CacheWriting.RotateRange` | kyute/src/cache.rs:284-289 | `slots[lo..hi].rotate_left(m)` keeps the length of the table |
| `CacheWriting.RotateRangeSpec` | kyute/src/cache.rs:284-289 | the rotation leaves the slots outside `[lo, hi)` untouched, permutes the range, and moves each slot `m` places cyclically |
| `CacheWriting.UpdateGroupLen` | kyute/src/cache.rs:90-100 | succeeds exactly on a `StartGroup` whose new length fits in `u32`, and then changes only the length |
| `CacheWriting.CloseInPlace` | kyute/src/cache.rs:383-415 | closing a group whose slots were all visited only rewrites the group's length |
| `CacheWriting.StartKeysRotate` | kyute/src/cache.rs:284-289 | rotation keeps the multiset of group keys in the table |
| `CacheWriting.CloseConsistent` | kyute/src/cache.rs:383-415 | closing a group keeps the group map matching the table: its own key survives the drain, and parents stay older than children |
| `CacheWriting.LayoutStep` | kyute/src/cache.rs:418-430 | stepping over the item at the cursor by its `len` keeps the cursor on item boundaries |
| `CacheWriting.LayoutClose` | kyute/src/cache.rs:383-415 | after draining and rewriting the length, the closed group becomes one item of its parent and the cursor sits after its `EndGroup` |
| `CacheWriting.LayoutRoot` | kyute/src/cache.rs:243-248 | with no group open, the whole table is well nested |
| `CacheWriting.LayoutAhead` | kyute/src/cache.rs:367-381 | the slot at the cursor is an `EndGroup` exactly when no item of the current group is left ahead |
| `CacheWriting.RemoveGroupsOf` | kyute/src/cache.rs:389-396 | the loop over drained slots removes exactly their group keys from the map |
| `CacheWriting.CacheWriter.ParentGroupKey` | kyute/src/cache.rs:225-234 | `None` exactly when no group is open; otherwise the key of the innermost open group, which is in the map |
| `CacheWriting.CacheWriter.GetInvalidationToken` | kyute/src/cache.rs:236-240 | panics exactly when no group is open; otherwise the innermost open group's key |
| `CacheWriting.CacheWriter.ParentGroupOffset` | kyute/src/cache.rs:303-309 | 0 with no open group; otherwise the (negative) distance back to the innermost group start |
| `CacheWriting.CacheWriter.Init` | kyute/src/cache.rs:215-223 | a writer at the start of a well-formed table, with no group open, satisfies the invariant with the whole table ahead |
| `CacheWriting.CacheWriter.GroupEnd` | kyute/src/cache.rs:367-381 | the end of the current group's items: the `EndGroup` closing it, or the end of the table when no group is open |
| `CacheWriting.CacheWriter.Search` | kyute/src/cache.rs:255-282 | any index found lies between the cursor and the group end and holds a `StartGroup` or `Value` with the key |
| `CacheWriting.CacheWriter.SearchFindsFirst` | kyute/src/cache.rs:255-282 | the index found starts a sibling item, and no earlier sibling carries the key; a miss means no sibling does |
| `CacheWriting.CacheWriter.GroupEndPosition` | kyute/src/cache.rs:367-381 | the loop stops at the `EndGroup` closing the current group, or at the end of the table for the root's siblings |
| `CacheWriting.CacheWriter.FindTagInCurrentGroup` | kyute/src/cache.rs:255-282 | the loop returns the first sibling ahead of the cursor, in the current group, that is a `StartGroup` or `Value` with the key (never a `Placeholder`) |
| `CacheWriting.CacheWriter.RotateInCurrentPosition` | kyute/src/cache.rs:284-289 | panics exactly when `p` is outside `[pos, group end]`; otherwise rotates `[pos, group end)` left by `p - pos` and nothing else |
| `CacheWriting.CacheWriter.Sync` | kyute/src/cache.rs:291-301 | reports whether the key was found; on a hit the found slot lands at `pos` by rotating only the current group's rest; on a miss nothing changes; the invariant holds |
| `CacheWriting.CacheWriter.RotateToCursor` | kyute/src/cache.rs:295-296 | the hit branch of `sync`: the rotation keeps the writer's invariant and the group end |
| `CacheWriting.CacheWriter.InsertGroup` | kyute/src/cache.rs:336-352 | the miss branch of `start_group`: inserts `StartGroup(key, fresh, 2)` and `EndGroup` at `pos` and registers a clean group under the enclosing group |
| `CacheWriting.CacheWriter.StartGroup` | kyute/src/cache.rs:325-358 | panics exactly on a hit on a `Value`; on a hit returns the group's dirty flag and rotates; on a miss inserts a clean group with the enclosing group as parent and returns false; both push `pos` and advance it by 1 |
| `CacheWriting.CacheWriter.EnterCurrentGroup` | kyute/src/cache.rs:354-357 | pushing the group start at the cursor and stepping into it keeps the invariant |
| `CacheWriting.CacheWriter.DrainCurrentGroup` | kyute/src/cache.rs:386-396 | deletes exactly the slots from `pos` to the group end and erases the map entry of every group start among them |
| `CacheWriting.CacheWriter.EndGroup` | kyute/src/cache.rs:383-415 | panics exactly when no group is open or the length overflows `u32`; otherwise drains the dead slots and their groups, steps past `EndGroup`, pops the stack, cleans the group and sets its `len` to its span |
| `CacheWriting.CacheWriter.CloseOpenGroup` | kyute/src/cache.rs:400-414 | writing the group's new length and clearing its dirty flag re-establishes the invariant |
| `CacheWriting.CacheWriter.Finish` | kyute/src/cache.rs:243-248 | closes the root group; panics if that panics, or if another group was still open, or if slots remain after the root's `EndGroup`; the table returned is well formed, is the old one with the root group closed (`CloseSlots`, `CloseGroups`: the slots between `pos` and the group end removed together with their groups), has `pos` at its end and no open group, and keeps the key counter |
| `CacheWriting.CacheWriter.Skip` | kyute/src/cache.rs:418-430 | panics past the end of the table; a group is skipped by its `len`, a value or placeholder by one, an `EndGroup` not at all |
| `CacheWriting.CacheWriter.SkipUntilEndOfGroup` | kyute/src/cache.rs:432-436 | panics with no open group (it would run off the table); otherwise stops at the `EndGroup` of the current group |
| `CacheWriting.CacheWriter.ExpectValue` | kyute/src/cache.rs:438-454 | panics past the end of the table; returns the stored value only when the slot at `pos` is a `Value` with the key (panicking on a type mismatch); otherwise inserts a `Placeholder`; either way returns the old `pos` and advances by 1 |
| `CacheWriting.CacheWriter.StepOverLeaf` | kyute/src/cache.rs:440-453 | stepping past a value or placeholder at the cursor moves one leaf from the items ahead to the items behind |
| `CacheWriting.CacheWriter.InsertLeaf` | kyute/src/cache.rs:445-450 | inserting a value or placeholder at the cursor and stepping past it adds one leaf behind the cursor and leaves the items ahead alone |
| `CacheWriting.CacheWriter.SetValue` | kyute/src/cache.rs:473-485 | panics unless the slot is a `Value` or `Placeholder`; otherwise stores the value under the slot's own key |
| `CacheWriting.CacheWriter.UpdateValueAtCursor` | kyute/src/cache.rs:502-517 | panics on a type mismatch; overwrites and returns true when the new value is not `same`, and changes nothing and returns false when it is |
| `CacheWriting.CacheWriter.CompareAndUpdateValue` | kyute/src/cache.rs:500-532 | absent key: inserts a `Value` and returns true; present and `same`: returns false after the rotation; present and different: overwrites and returns true; a group or a type mismatch: panics; `pos` advances by 1; the new table is the old one with the key's slot brought to `pos` (`SyncedSlots`), differing at most at `pos` |
| `CacheWriting.CacheWriter.SyncedSlots` | kyute/src/cache.rs:284-301 | the table after `sync`: the slots before `pos` are kept; on a miss the new slot is at `pos`; on a hit the found slot is at `pos` and the length is kept |
| `CacheWriting.RotateSlots` | kyute/src/cache.rs:288 | `rotate_left` of a slot range: the slots are those of `RotateRange`, the table stays consistent, and the group map and key counter are unchanged |
| `CacheWriting.CacheWriter.New` | kyute/src/cache.rs:215-223 | opens the root group; panics exactly when the root's key names a value slot; on a hit the table is the old one with the root's slot rotated to the front and the group map and key counter unchanged; on a miss it is the old one with `StartGroup(2)` and `EndGroup` inserted at 0, a clean group entry under the next key, and the counter advanced |
| `CacheFacade.CacheContext.Changed` | kyute/src/cache.rs:789-798 | `compare_and_update_value` under the key of the call site, with the key stack restored; the new table is the synchronised old one (`SyncedSlots`), differing at most at the old `pos` |
| `CacheFacade.CacheContext.ExpectValue` | kyute/src/cache.rs:801-810 | `expect_value` under the key of the call site, with the key stack restored: panics exactly past the end of the table or on a type mismatch (`ResultPanics`); returns the value stored at `pos` under the key (`ResultAt`), or inserts a `Placeholder` there when there is none; the slots before `pos` are kept |
| `CacheFacade.CacheContext.SetValue` | kyute/src/cache.rs:812-814 | `set_value` on the writer |
| `CacheFacade.CacheContext.BeginGroup` | kyute/src/cache.rs:817-823 | the first half of `group`: enters the call site's key and starts its group, returning the stored dirty flag on a hit |
| `CacheFacade.CacheContext.EndGroup` | kyute/src/cache.rs:825-828 | the second half of `group`: ends the writer's group and pops the key stack |
| `CacheFacade.CacheContext.SkipToEndOfGroup` | kyute/src/cache.rs:831-835 | moves the cursor to the `EndGroup` of the current group |
| `CacheFacade.CacheContext.CompareArgs` | kyute/src/cache.rs:840 | `changed(args)`: returns whether the arguments differ from those stored in the old table (`ArgsChanged`); what the result lookup then finds and when it panics are those of the old table (`StoredResult`, `LookupPanics`); the argument slot holds the new arguments when they changed and `same` ones otherwise |
| `CacheFacade.CacheContext.MemoizeLookup` | kyute/src/cache.rs:840-841 | compares the arguments and reserves the result slot: panics exactly when the old table holds a group or a value of another type under the arguments' key, a value of another type under the result's key, or no slot for the result (`LookupPanics`); otherwise returns whether the arguments changed and the stored result, both read off the table before the call; the argument slot holds the new arguments when they changed and `same` ones otherwise |
| `CacheFacade.CacheContext.Memoize` | kyute/src/cache.rs:838-851 | always compares the arguments; panics exactly when the lookup panics, or when neither dirty nor changed and there is no enclosing group or no stored result; returns the stored result of the table before the call, after skipping to the group end, exactly when neither dirty nor changed, and otherwise the reserved slot for the body's result |
| `CacheFacade.CacheContext.WithState` | kyute/src/cache.rs:854-876 | the stored state or `init()` goes through `update`; it is written back only when not `same`, so an unchanged initial state leaves a `Placeholder` |
| `CacheFacade.Cache.constructor` | kyute/src/cache.rs:703-707 | a cache holding a fresh table |
| `CacheFacade.Cache.RunBegin` | kyute/src/cache.rs:710-725 | takes the table out (panicking if absent) and opens a writer and an empty key stack over it; the writer's table is the old one with the root group opened as `CacheWriting.CacheWriter.New` states: rotated to the front on a hit, inserted with a clean group entry on a miss |
| `CacheFacade.Cache.RunEnd` | kyute/src/cache.rs:727-741 | panics on an unbalanced key stack or unbalanced groups; otherwise puts the finished, well-formed table back: the writer's table with the root group closed (`CloseSlots`, `CloseGroups`) and the key counter kept |
| `CacheFacade.Cache.Invalidate` | kyute/src/cache.rs:743-745 | panics during a run; otherwise marks the group and its ancestors dirty |
| `CacheCells.CacheCell.constructor` | kyute/src/cache_cell.rs:9-14 | nothing stored |
| `CacheCells.CacheCell.Cache` | kyute/src/cache_cell.rs:23-34 | stored `same` arguments return the stored value and leave storage unchanged; otherwise `init` runs and `(args, result)` is stored; afterwards the stored value is the one returned |
| `CacheCells.RepeatedCallHits` | kyute/src/cache_cell.rs:23-34 | a second call with `same` arguments returns the first call's result |
| `Composition.Len` | kyute/src/composition.rs:50-56 | the stored length for `ScopeStart`, 0 for `ScopeEnd`, 1 otherwise |
| `Composition.SetLen` | kyute/src/composition.rs:59-64 | panics on anything but `ScopeStart`; otherwise writes the length truncated to `u32` |
| `Composition.Lookup` | kyute/src/composition.rs:137-158 | any index found holds a `ScopeStart`, `Node` or `State` with the key |
| `Composition.LookupFirstSibling` | kyute/src/composition.rs:137-158 | the index found is the first sibling with the key, and none is found only when no sibling carries it |
| `Composition.FindAsWritten` | kyute/src/composition.rs:137-158 | the loop as written returns only entries at or after the start that carry the key |
| `Composition.FindAsWrittenSkipsSibling` | kyute/src/composition.rs:145-155 | as written, the loop steps twice and misses the second of two nodes |
| `Composition.FindAsWrittenPastEnd` | kyute/src/composition.rs:145-155 | as written, the loop indexes past the end of a one-node table |
| `Composition.Find` | kyute/src/composition.rs:137-158 | the loop, stepping once per entry by `len`, computes `Lookup` |
| `Composition.RotateLeftSpec` | kyute/src/composition.rs:170 | `rotate_left` moves each entry `m` places cyclically and permutes the table |
| `Composition.RotatedSpec` | kyute/src/composition.rs:162-174 | `rotate` keeps the entries before `pos`, permutes the table, is the identity on a miss, and on a hit brings an entry with the key to `pos` |
| `Composition.ScopeEndFrom` | kyute/src/composition.rs:236-243 | the first `ScopeEnd` with the key at or after the start, or none at all |
| `Composition.Composer.constructor` | kyute/src/composition.rs:115-122 | cursor at 0, no scope open |
| `Composition.Composer.Restart` | kyute/src/composition.rs:124-129 | panics exactly when a scope is open; otherwise resets the cursor and keeps the table |
| `Composition.Composer.Insert` | kyute/src/composition.rs:132-134 | inserts the entry at the cursor |
| `Composition.Composer.Rotate` | kyute/src/composition.rs:162-174 | reports whether the key is among the siblings ahead, which are rotated so that it is at `pos` |
| `Composition.Composer.RotateNode` | kyute/src/composition.rs:177-186 | on a hit returns the node's child index, and panics if the entry is not a node |
| `Composition.Composer.RotateState` | kyute/src/composition.rs:189-198 | on a hit returns the state's data, and panics if the entry is not a state |
| `Composition.Composer.CurrentScopeKey` | kyute/src/composition.rs:201-206 | panics outside a scope; otherwise the key of the current scope's start |
| `Composition.Composer.Enter` | kyute/src/composition.rs:210-227 | on a miss inserts `ScopeStart(2)` and `ScopeEnd` and returns true; on a hit rotates and returns false; saves the old scope start, sets it to `pos` and advances |
| `Composition.Composer.Exit` | kyute/src/composition.rs:230-254 | drains up to the first `ScopeEnd` with the scope's key, steps past it, sets the scope's `len` to its span and restores the parent scope; panics outside a scope or without such an end |
| `Composition.Composer.ExtractState` | kyute/src/composition.rs:273-298 | on a hit moves the data out and leaves a dummy; on a miss inserts a `State` and returns `init()`; returns the old `pos` |
| `Composition.Composer.WriteState` | kyute/src/composition.rs:301-308 | stores the data at an index holding a `State`, and panics otherwise |
| `Composition.Composer.EmitNode` | kyute/src/composition.rs:311-330 | on a hit returns the stored child index; on a miss inserts a node with the parent's child count and returns it; advances `pos` |
| `Composition.Composer.Finish` | kyute/src/composition.rs:333-337 | truncates the table to `pos` |
| `Composition.EnterExitEmpty` | kyute/src/composition.rs:210-254 | entering and at once leaving a new scope leaves a `ScopeStart(2)`/`ScopeEnd` pair and restores the scope |
| `Composition.ExtractThenWrite` | kyute/src/composition.rs:273-308 | `write_state` at the index `extract_state` returned stores the state under its key |
| `GapBuffers.PhysSpec` | kyute/src/widget/gap_buffer.rs:151-160 | the logical-to-physical map skips the gap, is increasing, and its image is exactly the live cells `[0, gap_pos)` and `[gap_pos + gap_size, cap)` |
| `GapBuffers.GrownCapacity` | kyute/src/widget/gap_buffer.rs:27-53 | capacity 0 grows to 1, any other doubles |
| `GapBuffers.GapCopyOverlaps` | kyute/src/widget/gap_buffer.rs:111-122 | as written, the copy's ranges overlap exactly when the gap moves farther than its size |
| `GapBuffers.GapCopyOverlapExample` | kyute/src/widget/gap_buffer.rs:111-115 | the overlapping copy for gap 0, size 1, target 2 |
| `GapBuffers.CopyWithin` | kyute/src/widget/gap_buffer.rs:111-122 | the loop copies a range within the array as an overlap-safe move |
| `GapBuffers.GapCopyKeepsElements` | kyute/src/widget/gap_buffer.rs:109-125 | moving the gap by that copy leaves the logical elements unchanged |
| `GapBuffers.WalkRange` | kyute/src/widget/gap_buffer.rs:228-240 | the iterators' walk, jumping from the gap start to the gap end, visits the physical cells of the logical range in order |
| `GapBuffers.GatherRange` | kyute/src/widget/gap_buffer.rs:163-177 | the cells of a logical range hold exactly that slice of the contents |
| `GapBuffers.Iter.Next` | kyute/src/widget/gap_buffer.rs:228-240 | yields the first remaining element, or `None` at the end |
| `GapBuffers.IterMut.Next` | kyute/src/widget/gap_buffer.rs:254-266 | yields the first remaining cell, or `None` at the end |
| `GapBuffers.GapBuffer.constructor` | kyute/src/widget/gap_buffer.rs:77-83 | an empty buffer with no capacity |
| `GapBuffers.GapBuffer.Len` | kyute/src/widget/gap_buffer.rs:86-88 | `cap - gap_size` is the number of elements |
| `GapBuffers.GapBuffer.Grow` | kyute/src/widget/gap_buffer.rs:27-53 | a fresh buffer of the grown capacity, holding the old cells at the front |
| `GapBuffers.GapBuffer.MoveGap` | kyute/src/widget/gap_buffer.rs:94-126 | keeps the contents and puts the gap at `pos`; grows only when the gap is empty and growth was asked for |
| `GapBuffers.GapBuffer.Insert` | kyute/src/widget/gap_buffer.rs:129-139 | the contents become `s[..pos] + [e] + s[pos..]` |
| `GapBuffers.GapBuffer.Remove` | kyute/src/widget/gap_buffer.rs:142-149 | panics unless `pos < len`; returns `s[pos]` and leaves `s[..pos] + s[pos+1..]` |
| `GapBuffers.GapBuffer.GetElemPtr` | kyute/src/widget/gap_buffer.rs:151-160 | panics past `len`; otherwise the cell holding element `pos`, or one past the buffer for `len` |
| `GapBuffers.GapBuffer.IterBounds` | kyute/src/widget/gap_buffer.rs:163-177 | the physical start and end of the range and the gap bounds; panics when a bound passes `len` |
| `GapBuffers.GapBuffer.Iterate` | kyute/src/widget/gap_buffer.rs:180-189 | panics when the range ends past `len`; otherwise the iterator yields exactly the range's elements in order |
| `GapBuffers.GapBuffer.IterateMut` | kyute/src/widget/gap_buffer.rs:192-201 | panics when the range ends past `len`; otherwise the iterator visits exactly the range's cells in order |
| `TextEditing.SplicedUndo` | kyute/src/widget/textedit.rs:156-161 | replacing the inserted text with the text it replaced restores the old text, with the cursor after it |
| `TextEditing.Selection.Min` | kyute/src/widget/textedit.rs:34-36 | the smaller end |
| `TextEditing.Selection.Max` | kyute/src/widget/textedit.rs:37-39 | the larger end |
| `TextEditing.Selection.Empty` | kyute/src/widget/textedit.rs:43-45 | an empty selection at `at` |
| `TextEditing.Selection.Default` | kyute/src/widget/textedit.rs:48-52 | the empty selection at 0 |
| `TextEditing.SelectionBounds` | kyute/src/widget/textedit.rs:33-45 | `min <= max`, `{min, max} == {start, end}`, and empty iff `min == max` |
| `TextEditing.Spliced` | kyute/src/widget/textedit.rs:156-161 | panics unless both ends are char boundaries; otherwise replaces bytes `[min, max)` with the text and leaves an empty selection after it |
| `TextEditing.InsertNothingAtCaret` | kyute/src/widget/textedit.rs:156-161 | inserting nothing at a caret changes nothing |
| `TextEditing.BackspaceRemovesCluster` | kyute/src/widget/textedit.rs:346-352 | Backspace at a caret removes the previous cluster and puts the caret at its start |
| `TextEditing.DeleteRemovesCluster` | kyute/src/widget/textedit.rs:353-359 | Delete at a caret removes the next cluster and keeps the caret |
| `TextEditing.TextEdit.constructor` | kyute/src/widget/textedit.rs:107-127 | the text with the caret at its start and no layout |
| `TextEditing.TextEdit.SetText` | kyute/src/widget/textedit.rs:129-132 | replaces the text and drops the layout |
| `TextEditing.CursorTarget` | kyute/src/widget/textedit.rs:96-104 | the grapheme lookup panics exactly when the caret is not a char boundary of the text (past its end or inside a character) |
| `TextEditing.TextEdit.MoveCursor` | kyute/src/widget/textedit.rs:135-153 | panics exactly on a word move or on a caret that is not a char boundary; otherwise the target is the previous or next boundary from `end`, or `end`; only `end` moves when extending, otherwise the selection collapses there |
| `TextEditing.TextEdit.Insert` | kyute/src/widget/textedit.rs:156-161 | the text and selection become those of `Spliced` |
| `TextEditing.TextEdit.SetCursor` | kyute/src/widget/textedit.rs:164-170 | the selection becomes `empty(pos)`, which is no change when it already was |
| `TextEditing.TextEdit.SetSelectionEnd` | kyute/src/widget/textedit.rs:172-178 | changes only `end` |
| `TextEditing.TextEdit.SelectAll` | kyute/src/widget/textedit.rs:180-183 | selects from 0 to the text's length |
| `TextEditing.Grown` | kyute/src/widget/textedit.rs:346-358 | Backspace or Delete grows a caret by one cluster, panicking exactly when the caret is not a char boundary, and leaves a non-empty selection as it is |
| `TextEditing.TextEdit.KeyDown` | kyute/src/widget/textedit.rs:345-374 | Backspace/Delete first extend a caret by one cluster then delete the selection, panicking exactly when either step does; arrows move, extending with Shift, and panic exactly on a caret that is not a char boundary; a character replaces the selection |
| `TextEditing.TextEdit.HandleEvent` | kyute/src/widget/textedit.rs:303-382 | focus in redraws; focus out collapses the selection to its end; a key press is handled like `KeyDown`, with the same panics; key releases and other events change nothing |
| `TextEditing.EditState.constructor` | kyute/src/widget/textedit.rs:394-399 | the text with the default selection |
| `TextEditing.EditState.SetText` | kyute/src/widget/textedit.rs:401-404 | replaces the text and resets the selection to the default |
| `Flex.CrossAxis` | kyute/src/widget/flex.rs:17-22 | the other axis |
| `Flex.MainLen` | kyute/src/widget/flex.rs:24-29 | width for horizontal, height for vertical |
| `Flex.CrossLen` | kyute/src/widget/flex.rs:31-36 | height for horizontal, width for vertical |
| `Flex.CrossAxisInvolution` | kyute/src/widget/flex.rs:17-22 | the cross axis of the cross axis is the axis |
| `Flex.CrossLenIsMainOfCross` | kyute/src/widget/flex.rs:24-36 | the length across an axis is the length along its cross axis, and the two lengths are the two sides of the size |

## Left out

- The thread-local context, `with_cx`, and the `take`/`replace` of the table inside `Cache::run` (kyute/src/cache.rs:689-755). They become an explicit `CacheContext`. The closures passed to `run`, `group` and `memoize` are split into a begin half and an end half, and the caller runs the body between them.
- `Cache::current_call_key`, `enter`, `exit`, `scoped` and `get_invalidation_token` (kyute/src/cache.rs:758-786). Each is a one-line forward to a modelled member of `CallKeyStack` or `CacheWriter`.
- `CacheInner::dump`, `CacheWriter::dump` and the composition table dump only print.
- The cache's `revision` counter is never read, so it is not modelled.
- `DefaultHasher` is an abstract function of the two keys, the location and the index.
- `Box<dyn Any>` becomes a value with a type tag, and a failed downcast becomes a panic. `Data::same` is an abstract function parameter.
- Group keys are fresh naturals from a counter, not versioned `slotmap` keys.
- The mouse branches of `TextEdit::event` (kyute/src/widget/textedit.rs:315-344) need text-layout hit-testing (`position_to_text`). Layout, painting, colours and formats of `TextEdit` are not modelled either; only whether a layout is cached is kept.
- Grapheme segmentation is a pair of abstract functions returning the previous or next boundary. Only the slice the grapheme cursor takes at the caret is modelled, as the panic of `TextEditing.CursorTarget`. The `unwrap` on the cursor's result cannot fail when the whole text is one chunk.
- TextEditing.TextEdit.MoveCursor: word movement is `unimplemented!()` in the source and is modelled only as a panic.
- Focus, redraw and relayout requests to the event context become the `Request` result of `HandleEvent`. Mouse capture belongs to the mouse branches above.
- The zero-sized-type check in `RawVec::new`, and the allocator, are not modelled. That means allocation failure, the `isize` size check in `grow`, `realloc` and `dealloc` are left out. The undefined `new_layout` on the error path of `grow` therefore does not arise. Only the capacity arithmetic is kept.
- GapBuffers.GapBuffer.Insert: the position must be at most `len`, because `insert` past `len` writes outside the buffer's elements (undefined behaviour, not a panic).
- `cx.key_stack.is_empty()` in `Cache::run` (kyute/src/cache.rs:734) calls a method that `CallKeyStack` (kyute/src/call_key.rs:25-62) does not define. `CallKeys.CallKeyStack.IsEmpty` supplies it as the stack having no entries.
- `self.len += 1` in `GapBuffer::insert` names a field that does not exist. `len` is derived from the capacity and the gap size throughout.
- GapBuffers.GapBuffer.Iterate: a range whose end lies before its start builds iterators that run past `end` and off the buffer. Such a range is excluded by a precondition.
- GapBuffers.GapBuffer.IterateMut: the same precondition as `Iterate`, for the same reason.
- `Drop` for `GapBuffer` and `RawVec` frees memory. The cells it drops are the live cells of `GapBuffers.PhysSpec`.
- Flex.MainLen: `f64` lengths are reals. The helpers only select a coordinate, so no rounding is involved.
- CacheFacade.CacheContext.BeginGroup: on a miss it does not restate the inserted slots or the new group-map entry, both of which `CacheWriting.CacheWriter.StartGroup` states.
- CacheFacade.CacheContext.CompareArgs: states only one direction of its panics; `CacheFacade.CacheContext.MemoizeLookup`, which calls it, states both.
- Composition.Composer.Rotate: it and `RotateNode`, `RotateState`, `Enter`, `ExtractState` and `EmitNode`, which call it, are built on the corrected `Composition.Find`, not on the source's `find` (kyute/src/composition.rs:162-174 calls the loop listed under Findings).
- CacheWriting.CacheWriter.ParentGroupOffset: the offset is stated only for cursors below 2^31, where the `as i32` casts are exact.
- Wrappers.WrappingSubI32: `parent_group_offset` overflows only for tables of more than 2^31 slots. Rust's debug builds panic there, while this model wraps.
- The UI contexts of kyute/src/composition.rs (`InitCtx`, `UpdateCtx`, `CompositionCtx`, `create_node`, `Node`, lines 341-740) drive windows, widgets and environments rather than the table. They are not modelled.
- The `RefCell` borrow of `CacheCell` panics on re-entrant use, which is not modelled.

## Findings

| source | as written | input that shows it | evidently intended | confidence | as-written member | corrected member |
|---|---|---|---|---|---|---|
| kyute/src/composition.rs:145-155 | every arm that does not return steps `i` once in the arm, then again by `entries[i].len()` after the `match`; the second step reads the entry past the one just skipped | `find([Node(0, A), Node(1, B)], B)` steps from 0 to 1 and then by `len` of entry 1 to 2, returning `None`; `find([Node(0, A)], B)` indexes entry 1 of a one-entry table and panics | step once per sibling, by its `len`, and stop at `ScopeEnd` | not executed | `Composition.FindAsWritten`, `Composition.FindAsWrittenSkipsSibling`, `Composition.FindAsWrittenPastEnd` | `Composition.Find` (with `Composition.LookupFirstSibling`) |
| kyute/src/widget/gap_buffer.rs:111-122 | the gap is moved with `ptr::copy_nonoverlapping`, whose source and destination overlap whenever the gap moves farther than its size | `gap_pos = 0`, `gap_size = 1`, `move_gap(2)`: copies 2 cells from 1 to 0, ranges `[1, 3)` and `[0, 2)` overlap (undefined behaviour) | an overlap-safe `ptr::copy` (memmove) | not executed | `GapBuffers.GapCopyOverlaps`, `GapBuffers.GapCopyOverlapExample` | `GapBuffers.GapBuffer.MoveGap` (with `GapBuffers.CopyWithin`) |
