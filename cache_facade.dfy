/** The `Cache` facade (kyute/src/cache.rs): the operations that cached code
    calls during a run. The thread-local context of the source is an explicit
    `CacheContext` object, and the closures that `run`, `group` and `memoize`
    take are split into a `Begin` half and an `End` half, between which the
    caller runs the closure's body against the same context. */
module CacheFacade {
  import opened Wrappers
  import opened CallKeys
  import opened SlotTable
  import opened CacheWriting

  /** The call sites of `changed` and `expect_value` inside `memoize`
      (kyute/src/cache.rs, lines 840 and 841). Both callees are
      `#[track_caller]`, but the closure that `memoize` hands to `group` is
      not, so their keys are derived from these fixed locations. */
  const MEMOIZE_CHANGED_SITE: Location := Location("kyute/src/cache.rs", 840, 35)
  const MEMOIZE_EXPECT_SITE: Location := Location("kyute/src/cache.rs", 841, 33)

  /** How the first half of `memoize` ends: with the stored result, the group
      already closed, or with the slot the caller must fill after running the
      body. */
  datatype Memo = Cached(value: Dyn) | Compute(slot: nat)

  /** The value `expect_value` finds at index `i` of `s` when it looks for
      a value under `key`, if any. */
  function ResultAt(s: seq<Slot>, i: nat, key: CallKey): (r: Option<Dyn>)
    ensures r.Some? <==> i < |s| && IsValueFor(s[i], key)
  {
    if i < |s| && IsValueFor(s[i], key) then Some(s[i].value) else None
  }

  /** Whether `expect_value` panics at index `i` of `s`: past the end of the
      table, or on a value under `key` of another type than `tag`. */
  predicate ResultPanics(s: seq<Slot>, i: nat, key: CallKey, tag: TypeTag) {
    i >= |s| || (IsValueFor(s[i], key) && s[i].value.tag != tag)
  }

  /** `CacheContext`: the call-key stack and the table writer of a run. */
  class CacheContext {
    const keyStack: CallKeyStack
    const writer: CacheWriter

    constructor (keyStack: CallKeyStack, writer: CacheWriter)
      ensures this.keyStack == keyStack && this.writer == writer
    {
      this.keyStack := keyStack;
      this.writer := writer;
    }

    ghost predicate Valid()
      reads this, writer, writer.cache
    {
      writer.Valid()
    }

    /** The key that `enter(location, 0)` pushes on the current stack. */
    function KeyFor(location: Location): CallKey
      reads this, keyStack
    {
      CallKey(ChainHash(keyStack.hash, keyStack.stack, location, 0))
    }

    /** The dirty flag `start_group` reports for `key`: that of the group the
        key search of the current group finds, false when it finds none. */
    ghost function StoredDirty(key: CallKey): bool
      requires Valid()
      reads this, writer, writer.cache
    {
      var hit := writer.Search(key);
      if hit.Some? && writer.cache.slots[hit.value].StartGroup? then
        writer.cache.StartKeyLive(hit.value);
        writer.cache.groups[writer.cache.slots[hit.value].groupKey].dirty
      else false
    }

    /** `Cache::changed`: under the key of the call at `location`, compares
        `value` with the value stored in the current group and stores it when
        it is absent or not the same. The key stack is restored. */
    method Changed(location: Location, value: Dyn, same: Same) returns (r: Result<bool>)
      requires Valid()
      modifies keyStack, writer, writer.cache
      ensures var key := old(KeyFor(location));
              r.Panic? <==>
                old(writer.Search(key)).Some?
                && (old(writer.cache.slots[writer.Search(key).value]).StartGroup?
                    || old(writer.cache.slots[writer.Search(key).value]).value.tag != value.tag)
      ensures r.Ok? ==> Valid() && keyStack.stack == old(keyStack.stack)
      ensures r.Ok? ==> writer.pos == old(writer.pos) + 1 && writer.groupStack == old(writer.groupStack)
      ensures r.Ok? ==> writer.cache.slots[..old(writer.pos)] == old(writer.cache.slots)[..old(writer.pos)]
      ensures r.Ok? ==>
                var key := old(KeyFor(location));
                r.value == (old(writer.Search(key)).None? || !same(value, old(writer.cache.slots[writer.Search(key).value]).value))
      ensures r.Ok? ==>
                var key := old(KeyFor(location));
                writer.cache.slots[old(writer.pos)]
                == if r.value then Value(key, value) else old(writer.cache.slots[writer.Search(key).value])
      ensures r.Ok? ==>
                var key := old(KeyFor(location));
                writer.cache.slots == old(writer.SyncedSlots(key, Value(key, value)))[old(writer.pos) := writer.cache.slots[old(writer.pos)]]
      ensures writer.cache.groups == old(writer.cache.groups) && writer.cache.nextKey == old(writer.cache.nextKey)
    {
      var key := keyStack.Enter(location, 0);
      ghost var s0, p0 := writer.cache.slots, writer.pos;
      ghost var next := writer.SyncedSlots(key, Value(key, value));
      var changed := writer.CompareAndUpdateValue(keyStack.Current().value, value, same);
      if changed.Panic? {
        return changed;
      }
      assert writer.cache.slots[..p0] == next[..p0] == s0[..p0];
      keyStack.Exit();
      return changed;
    }

    /** `Cache::expect_value`: the value stored under the key of the call at
        `location`, if the slot at the cursor holds one, and the index of the
        slot reserved for it. */
    method ExpectValue(location: Location, tag: TypeTag) returns (r: Result<(Option<Dyn>, nat)>)
      requires Valid()
      modifies keyStack, writer, writer.cache
      ensures r.Panic? <==> ResultPanics(old(writer.cache.slots), old(writer.pos), old(KeyFor(location)), tag)
      ensures r.Ok? ==> Valid() && keyStack.stack == old(keyStack.stack)
      ensures r.Ok? ==>
                old(writer.pos) < |old(writer.cache.slots)| && r.value.1 == old(writer.pos)
                && writer.pos == old(writer.pos) + 1 && writer.groupStack == old(writer.groupStack)
      ensures r.Ok? ==>
                var key := old(KeyFor(location));
                r.value.0 == ResultAt(old(writer.cache.slots), old(writer.pos), key)
                && writer.cache.slots
                   == if r.value.0.Some? then old(writer.cache.slots)
                      else Insert(old(writer.cache.slots), old(writer.pos), [Placeholder(key)])
      ensures r.Ok? ==>
                var key := old(KeyFor(location));
                writer.cache.slots[..old(writer.pos)] == old(writer.cache.slots)[..old(writer.pos)]
                && writer.cache.slots[old(writer.pos)] == if r.value.0.Some? then Value(key, r.value.0.value) else Placeholder(key)
      ensures writer.cache.groups == old(writer.cache.groups) && writer.cache.nextKey == old(writer.cache.nextKey)
    {
      var key := keyStack.Enter(location, 0);
      var found := writer.ExpectValue(keyStack.Current().value, tag);
      if found.Panic? {
        return found;
      }
      if found.value.0.None? {
        InsertPrefix(old(writer.cache.slots), old(writer.pos), [Placeholder(key)]);
      }
      keyStack.Exit();
      return found;
    }

    /** `Cache::set_value`. */
    method SetValue(slot: nat, value: Dyn) returns (r: Result<()>)
      requires Valid()
      modifies writer.cache
      ensures r.Panic? <==>
                slot >= |old(writer.cache.slots)|
                || !(old(writer.cache.slots)[slot].Value? || old(writer.cache.slots)[slot].Placeholder?)
      ensures r.Ok? ==>
                Valid() && writer.cache.slots == old(writer.cache.slots)[slot := Value(old(writer.cache.slots)[slot].key, value)]
      ensures writer.cache.groups == old(writer.cache.groups) && writer.cache.nextKey == old(writer.cache.nextKey)
    {
      r := writer.SetValue(slot, value);
    }

    /** The first half of `Cache::group`: enters the call at `location` and
        starts the group with its key; yields whether that group is dirty. */
    method BeginGroup(location: Location) returns (r: Result<bool>)
      requires Valid()
      modifies keyStack, writer, writer.cache
      ensures keyStack.stack == old(keyStack.stack) + [old(KeyFor(location)).bits]
      ensures var key := old(KeyFor(location));
              r.Panic? <==> old(writer.Search(key)).Some? && old(writer.cache.slots[writer.Search(key).value]).Value?
      ensures r.Ok? ==>
                Valid() && writer.pos == old(writer.pos) + 1 && writer.groupStack == old(writer.groupStack) + [old(writer.pos)]
      ensures r.Ok? ==>
                var key := old(KeyFor(location));
                writer.cache.slots[old(writer.pos)].StartGroup? && writer.cache.slots[old(writer.pos)].key == key
                && writer.cache.slots[..old(writer.pos)] == old(writer.cache.slots)[..old(writer.pos)]
                && r.value == old(StoredDirty(key))
      ensures r.Ok? && old(writer.Search(KeyFor(location))).Some? ==>
                writer.cache.groups == old(writer.cache.groups) && writer.cache.nextKey == old(writer.cache.nextKey)
    {
      var key := keyStack.Enter(location, 0);
      ghost var s0, p0, e0, hit := writer.cache.slots, writer.pos, writer.GroupEnd(), writer.Search(key);
      ghost var dirty0 := StoredDirty(key);
      r := writer.StartGroup(keyStack.Current().value);
      if r.Ok? {
        if hit.Some? {
          RotateHead(s0, p0, hit.value - p0, e0);
          assert writer.cache.slots[p0] == s0[hit.value];
          assert r.value == dirty0;
        } else {
          InsertPrefix(s0, p0, [Slot.StartGroup(key, writer.cache.nextKey - 1, 2), Slot.EndGroup]);
          assert r.value == dirty0;
        }
      }
    }

    /** The second half of `Cache::group`: ends the current group and exits
        its call. */
    method EndGroup() returns (r: Result<()>)
      requires Valid()
      modifies keyStack, writer, writer.cache
      ensures r.Panic? <==>
                old(writer.groupStack) == []
                || old(writer.pos) + 1 - old(writer.groupStack)[|old(writer.groupStack)| - 1] >= U32_LIMIT
      ensures r.Ok? ==>
                Valid() && writer.pos == old(writer.pos) + 1
                && writer.groupStack == old(writer.groupStack)[..|old(writer.groupStack)| - 1]
      ensures r.Ok? ==>
                writer.cache.slots
                == CloseSlots(old(writer.cache.slots), old(writer.OpenStart()), old(writer.pos), old(writer.GroupEnd()))
      ensures r.Ok? ==>
                old(writer.cache.slots[writer.OpenStart()].groupKey)
                in old(writer.cache.groups) - KeySet(old(writer.cache.slots[writer.pos..writer.GroupEnd()]))
                && writer.cache.groups
                   == CloseGroups(old(writer.cache.groups), old(writer.cache.slots[writer.pos..writer.GroupEnd()]),
                                  old(writer.cache.slots[writer.OpenStart()].groupKey))
      ensures r.Ok? ==>
                keyStack.stack == if old(keyStack.stack) == [] then [] else old(keyStack.stack)[..|old(keyStack.stack)| - 1]
      ensures writer.cache.nextKey == old(writer.cache.nextKey)
    {
      r := writer.EndGroup();
      if r.Ok? {
        keyStack.Exit();
      }
    }

    /** `Cache::skip_to_end_of_group`: moves the cursor to the end of the
        current group, leaving the table as it is. */
    method SkipToEndOfGroup() returns (r: Result<()>)
      requires Valid()
      modifies writer
      ensures r.Panic? <==> old(writer.groupStack) == []
      ensures r.Ok? ==>
                Valid() && writer.pos == old(writer.GroupEnd()) && writer.GroupEnd() == writer.pos
                && writer.pos < |writer.cache.slots| && writer.cache.slots[writer.pos].EndGroup?
      ensures writer.groupStack == old(writer.groupStack)
    {
      r := writer.SkipUntilEndOfGroup();
    }

    /** Whether `changed(args)` inside `memoize` reports a change: the key
        search of the current group finds no value under the key of its call,
        or finds one that is not the same as `args`. */
    ghost predicate ArgsChanged(args: Dyn, same: Same)
      requires Valid()
      reads this, keyStack, writer, writer.cache
    {
      var hit := writer.Search(KeyFor(MEMOIZE_CHANGED_SITE));
      hit.None? || !writer.cache.slots[hit.value].Value? || !same(args, writer.cache.slots[hit.value].value)
    }

    /** The result `expect_value` inside `memoize` finds: the value stored
        under the key of its call in the slot that follows the arguments' slot
        once `changed` has brought that slot to the cursor, if there is one. */
    ghost function StoredResult(args: Dyn): Option<Dyn>
      requires Valid()
      reads this, keyStack, writer, writer.cache
    {
      var argsKey := KeyFor(MEMOIZE_CHANGED_SITE);
      ResultAt(writer.SyncedSlots(argsKey, Value(argsKey, args)), writer.pos + 1, KeyFor(MEMOIZE_EXPECT_SITE))
    }

    /** Whether one of the two lookups of `memoize` panics: `changed` finds a
        group start, or a value of another type, under its key; or
        `expect_value` indexes past the end of the table, or finds a result of
        another type. */
    ghost predicate LookupPanics(args: Dyn, tag: TypeTag)
      requires Valid()
      reads this, keyStack, writer, writer.cache
    {
      var argsKey := KeyFor(MEMOIZE_CHANGED_SITE);
      var hit := writer.Search(argsKey);
      (hit.Some? && (writer.cache.slots[hit.value].StartGroup? || writer.cache.slots[hit.value].value.tag != args.tag))
      || ResultPanics(writer.SyncedSlots(argsKey, Value(argsKey, args)), writer.pos + 1, KeyFor(MEMOIZE_EXPECT_SITE), tag)
    }

    /** The closure that `Cache::memoize` runs in the group of its call
        (started by `BeginGroup`, which yields `dirty`, and ended by
        `EndGroup`): compares `args` with the stored arguments (always: the
        source combines the two flags with a non-short-circuit `|`) and looks
        up the stored result. When the group is neither dirty nor the
        arguments changed, the rest of the group is skipped and the stored
        result is returned, which must exist; otherwise the caller runs the
        body and stores its result with `SetValue` in the returned slot. */
    method Memoize(dirty: bool, args: Dyn, same: Same, tag: TypeTag) returns (r: Result<Memo>)
      requires Valid()
      modifies keyStack, writer, writer.cache
      ensures r.Panic? <==>
                old(LookupPanics(args, tag))
                || (!dirty && !old(ArgsChanged(args, same)) && (old(writer.groupStack) == [] || old(StoredResult(args)).None?))
      ensures r.Ok? ==> Valid() && (r.value.Cached? <==> !dirty && !old(ArgsChanged(args, same)))
      ensures r.Ok? && r.value.Cached? ==> old(StoredResult(args)) == Some(r.value.value)
      ensures r.Ok? ==> writer.groupStack == old(writer.groupStack) && keyStack.stack == old(keyStack.stack)
      ensures r.Ok? ==>
                var p := old(writer.pos);
                var argsKey := old(KeyFor(MEMOIZE_CHANGED_SITE));
                p + 1 < |writer.cache.slots| && writer.cache.slots[..p] == old(writer.cache.slots)[..p]
                && writer.cache.slots[p].Value? && writer.cache.slots[p].key == argsKey
                && (old(ArgsChanged(args, same)) ==> writer.cache.slots[p].value == args)
                && (!old(ArgsChanged(args, same)) ==> same(args, writer.cache.slots[p].value))
      ensures r.Ok? && r.value.Compute? ==>
                var p := old(writer.pos);
                var resultKey := old(KeyFor(MEMOIZE_EXPECT_SITE));
                r.value.slot == p + 1 && writer.pos == p + 2
                && (writer.cache.slots[p + 1].Value? || writer.cache.slots[p + 1].Placeholder?)
                && writer.cache.slots[p + 1].key == resultKey
      ensures r.Ok? && r.value.Cached? ==>
                var p := old(writer.pos);
                var resultKey := old(KeyFor(MEMOIZE_EXPECT_SITE));
                writer.cache.slots[p + 1] == Value(resultKey, r.value.value) && r.value.value.tag == tag
                && writer.pos == writer.GroupEnd() && writer.pos < |writer.cache.slots| && writer.cache.slots[writer.pos].EndGroup?
    {
      var looked := MemoizeLookup(args, same, tag);
      if looked.Panic? {
        return Panic(looked.msg);
      }
      var (compared, value, slot) := looked.value;
      // `dirty | changed(args)`: both sides are always evaluated
      if dirty || compared {
        return Ok(Compute(slot));
      }
      var skipped := SkipToEndOfGroup();
      if skipped.Panic? {
        return Panic(skipped.msg);
      }
      if value.None? {
        return Panic("memoize: no changes in arguments but no value calculated");
      }
      return Ok(Cached(value.value));
    }

    /** The call on line 840 inside `memoize`: `changed(args)`. Besides what
        `Changed` says, states what the lookup on line 841 then finds at the
        cursor in terms of the table before the comparison. */
    method CompareArgs(args: Dyn, same: Same, tag: TypeTag) returns (r: Result<bool>)
      requires Valid()
      modifies keyStack, writer, writer.cache
      ensures r.Panic? ==> old(LookupPanics(args, tag))
      ensures r.Ok? ==> Valid() && keyStack.stack == old(keyStack.stack)
      ensures r.Ok? ==> writer.pos == old(writer.pos) + 1 && writer.groupStack == old(writer.groupStack)
      ensures r.Ok? ==> KeyFor(MEMOIZE_EXPECT_SITE) == old(KeyFor(MEMOIZE_EXPECT_SITE))
      ensures r.Ok? ==>
                r.value == old(ArgsChanged(args, same))
                && ResultAt(writer.cache.slots, writer.pos, KeyFor(MEMOIZE_EXPECT_SITE)) == old(StoredResult(args))
                && (ResultPanics(writer.cache.slots, writer.pos, KeyFor(MEMOIZE_EXPECT_SITE), tag) <==> old(LookupPanics(args, tag)))
      ensures r.Ok? ==>
                var p := old(writer.pos);
                writer.cache.slots[..p] == old(writer.cache.slots)[..p]
                && writer.cache.slots[p].Value? && writer.cache.slots[p].key == old(KeyFor(MEMOIZE_CHANGED_SITE))
                && (r.value ==> writer.cache.slots[p].value == args)
                && (!r.value ==> same(args, writer.cache.slots[p].value))
    {
      ghost var p := writer.pos;
      ghost var argsKey, resultKey := KeyFor(MEMOIZE_CHANGED_SITE), KeyFor(MEMOIZE_EXPECT_SITE);
      ghost var next := writer.SyncedSlots(argsKey, Value(argsKey, args));
      ghost var changed0, stored0, panics0 := ArgsChanged(args, same), StoredResult(args), LookupPanics(args, tag);
      r := Changed(MEMOIZE_CHANGED_SITE, args, same);
      if r.Panic? {
        assert panics0;
        return;
      }
      ghost var s1 := writer.cache.slots;
      assert r.value == changed0;
      assert ResultAt(s1, p + 1, resultKey) == ResultAt(next, p + 1, resultKey) == stored0;
      assert ResultPanics(s1, p + 1, resultKey, tag) == ResultPanics(next, p + 1, resultKey, tag);
    }

    /** The start of the closure `memoize` runs in its group: compares the
        arguments under the call on line 840 and looks up the stored result
        under the call on line 841. Yields whether the arguments changed, the
        stored result if any, and the index of the result's slot. */
    method MemoizeLookup(args: Dyn, same: Same, tag: TypeTag) returns (r: Result<(bool, Option<Dyn>, nat)>)
      requires Valid()
      modifies keyStack, writer, writer.cache
      ensures r.Panic? <==> old(LookupPanics(args, tag))
      ensures r.Ok? ==> r.value.0 == old(ArgsChanged(args, same)) && r.value.1 == old(StoredResult(args))
      ensures r.Ok? ==> Valid() && keyStack.stack == old(keyStack.stack)
      ensures r.Ok? ==>
                writer.pos == old(writer.pos) + 2 && writer.groupStack == old(writer.groupStack)
                && r.value.2 == old(writer.pos) + 1
      ensures r.Ok? ==>
                var p := old(writer.pos);
                var argsKey := old(KeyFor(MEMOIZE_CHANGED_SITE));
                p + 1 < |writer.cache.slots| && writer.cache.slots[..p] == old(writer.cache.slots)[..p]
                && writer.cache.slots[p].Value? && writer.cache.slots[p].key == argsKey
                && (r.value.0 ==> writer.cache.slots[p].value == args)
                && (!r.value.0 ==> same(args, writer.cache.slots[p].value))
      ensures r.Ok? ==>
                var p := old(writer.pos);
                var resultKey := old(KeyFor(MEMOIZE_EXPECT_SITE));
                p + 1 < |writer.cache.slots|
                && (writer.cache.slots[p + 1].Value? || writer.cache.slots[p + 1].Placeholder?)
                && writer.cache.slots[p + 1].key == resultKey
                && (r.value.1.Some? ==> writer.cache.slots[p + 1] == Value(resultKey, r.value.1.value) && r.value.1.value.tag == tag)
    {
      ghost var p := writer.pos;
      var compared := CompareArgs(args, same, tag);
      if compared.Panic? {
        return Panic(compared.msg);
      }
      ghost var s1, resultKey := writer.cache.slots, KeyFor(MEMOIZE_EXPECT_SITE);
      var expected := ExpectValue(MEMOIZE_EXPECT_SITE, tag);
      if expected.Panic? {
        return Panic(expected.msg);
      }
      ghost var s2 := writer.cache.slots;
      var (value, slot) := expected.value;
      assert s2[p] == s1[p] && s2[..p] == s1[..p] by {
        assert s2[..p] == s2[..p + 1][..p] && s1[..p] == s1[..p + 1][..p];
      }
      return Ok((compared.value, value, slot));
    }

    /** `Cache::with_state`: the state stored under the key of the call at
        `location`, or `init()` the first time, is passed to `update`. The
        updated state is written back only when it is not the same as the
        state passed in, so an initial state that `update` leaves the same
        stays unstored: its slot remains a placeholder. */
    method WithState<R>(location: Location, tag: TypeTag, init: () -> Dyn, update: Dyn -> (Dyn, R), same: Same)
      returns (r: Result<R>)
      requires Valid()
      modifies keyStack, writer, writer.cache
      ensures var key := old(KeyFor(location));
              r.Panic? <==>
                old(writer.pos) >= |old(writer.cache.slots)|
                || (IsValueFor(old(writer.cache.slots)[old(writer.pos)], key)
                    && old(writer.cache.slots)[old(writer.pos)].value.tag != tag)
      ensures r.Ok? ==>
                Valid() && keyStack.stack == old(keyStack.stack)
                && writer.pos == old(writer.pos) + 1 && writer.groupStack == old(writer.groupStack)
      ensures r.Ok? ==>
                var key := old(KeyFor(location));
                var s0, p0 := old(writer.cache.slots), old(writer.pos);
                var stored := IsValueFor(s0[p0], key);
                var state := if stored then s0[p0].value else init();
                var reserved := if stored then s0 else Insert(s0, p0, [Placeholder(key)]);
                r.value == update(state).1
                && writer.cache.slots
                   == if same(state, update(state).0) then reserved else reserved[p0 := Value(key, update(state).0)]
      ensures r.Ok? ==>
                var key := old(KeyFor(location));
                var s0, p0 := old(writer.cache.slots), old(writer.pos);
                !IsValueFor(s0[p0], key) && same(init(), update(init()).0) ==> writer.cache.slots[p0] == Placeholder(key)
      ensures writer.cache.groups == old(writer.cache.groups) && writer.cache.nextKey == old(writer.cache.nextKey)
    {
      ghost var s0, p0, key := writer.cache.slots, writer.pos, KeyFor(location);
      var expected := ExpectValue(location, tag);
      if expected.Panic? {
        return Panic(expected.msg);
      }
      var (value, slot) := expected.value;
      var state := if value.Some? then value.value else init();
      var (updated, result) := update(state);
      if !same(state, updated) {
        var _ := SetValue(slot, updated);
      }
      return Ok(result);
    }
  }

  /** `Cache`: the slot table between runs. While a run holds the table,
      `inner` is `None`. */
  class Cache {
    /** The hash of every call-key stack this cache's runs create. */
    const hash: Hasher
    var inner: Option<CacheInner>

    ghost predicate Valid()
      reads this, if inner.Some? then {inner.value} else {}
    {
      inner.Some? ==> inner.value.WellFormed()
    }

    /** `Cache::new`. */
    constructor (hash: Hasher)
      ensures this.hash == hash && Valid() && inner.Some? && fresh(inner.value)
      ensures inner.value.slots == [Slot.StartGroup(CallKey(0), 0, 2), Slot.EndGroup]
      ensures inner.value.groups == map[0 := Group(None, false)]
    {
      this.hash := hash;
      var table := new CacheInner();
      inner := Some(table);
    }

    /** The first half of `Cache::run`: takes the table out of the cache,
        starts a writer on it (which opens the root group) and pairs it with
        a fresh call-key stack. The function then runs against the returned
        context, and `RunEnd` puts the table back. Taking a table that is
        not there (a nested run) panics. */
    method RunBegin() returns (r: Result<CacheContext>)
      requires Valid()
      modifies this, if inner.Some? then {inner.value} else {}
      ensures r.Panic? <==>
                old(inner).None?
                || var hit := FindFrom(old(inner.value.slots), 0, |old(inner.value.slots)|, CallKey(0));
                   hit.Some? && old(inner.value.slots)[hit.value].Value?
      ensures r.Ok? ==>
                inner.None? && fresh(r.value) && fresh(r.value.keyStack) && r.value.Valid()
                && r.value.writer.cache == old(inner.value) && r.value.keyStack.hash == hash && r.value.keyStack.stack == []
                && r.value.writer.pos == 1 && r.value.writer.groupStack == [0]
      ensures r.Ok? ==>
                var table := r.value.writer.cache;
                var s0 := old(inner.value.slots);
                var hit := FindFrom(s0, 0, |s0|, CallKey(0));
                if hit.Some? then
                  table.slots == RotateRange(s0, 0, hit.value, |s0|)
                  && table.groups == old(inner.value.groups) && table.nextKey == old(inner.value.nextKey)
                else
                  table.slots == Insert(s0, 0, [Slot.StartGroup(CallKey(0), old(inner.value.nextKey), 2), Slot.EndGroup])
                  && table.groups == old(inner.value.groups)[old(inner.value.nextKey) := Group(None, false)]
                  && table.nextKey == old(inner.value.nextKey) + 1
    {
      if inner.None? {
        return Panic("called `Option::unwrap()` on a `None` value");
      }
      var table := inner.value;
      inner := None;
      var started := CacheWriter.New(table);
      if started.Panic? {
        return Panic(started.msg);
      }
      var keyStack := new CallKeyStack(hash);
      var cx := new CacheContext(keyStack, started.value);
      return Ok(cx);
    }

    /** The second half of `Cache::run`: checks that the run left the
        call-key stack empty, finishes the writer and puts the table back. */
    method RunEnd(cx: CacheContext) returns (r: Result<()>)
      requires cx.Valid()
      modifies this, cx.writer, cx.writer.cache
      ensures r.Panic? <==>
                !old(cx.keyStack.IsEmpty())
                || old(cx.writer.groupStack) == []
                || old(cx.writer.pos) + 1 - old(cx.writer.groupStack)[|old(cx.writer.groupStack)| - 1] >= U32_LIMIT
                || |old(cx.writer.groupStack)| != 1 || old(cx.writer.GroupEnd()) + 1 != |old(cx.writer.cache.slots)|
      ensures r.Ok? ==> inner == Some(cx.writer.cache) && Valid() && cx.writer.pos == |cx.writer.cache.slots|
      ensures r.Ok? ==>
                cx.writer.cache.slots
                == CloseSlots(old(cx.writer.cache.slots), old(cx.writer.OpenStart()), old(cx.writer.pos), old(cx.writer.GroupEnd()))
      ensures r.Ok? ==>
                old(cx.writer.cache.slots[cx.writer.OpenStart()].groupKey)
                in old(cx.writer.cache.groups) - KeySet(old(cx.writer.cache.slots[cx.writer.pos..cx.writer.GroupEnd()]))
                && cx.writer.cache.groups
                == CloseGroups(old(cx.writer.cache.groups), old(cx.writer.cache.slots[cx.writer.pos..cx.writer.GroupEnd()]),
                               old(cx.writer.cache.slots[cx.writer.OpenStart()].groupKey))
      ensures cx.writer.cache.nextKey == old(cx.writer.cache.nextKey)
    {
      if !cx.keyStack.IsEmpty() {
        return Panic("unbalanced CallKeyStack");
      }
      var finished := cx.writer.Finish();
      if finished.Panic? {
        return Panic(finished.msg);
      }
      inner := Some(finished.value);
      return Ok(());
    }

    /** `Cache::invalidate`: marks the token's group and its ancestors dirty
        in the table; a token whose group is gone changes nothing. There must
        be a table, so this cannot be called during a run. */
    method Invalidate(token: GroupKey) returns (r: Result<()>)
      requires Valid()
      modifies if inner.Some? then {inner.value} else {}
      ensures r.Panic? <==> inner.None?
      ensures r.Ok? ==>
                Valid() && inner.value.groups == MarkDirty(old(inner.value.groups), token)
                && inner.value.slots == old(inner.value.slots)
    {
      if inner.None? {
        return Panic("called `Option::unwrap()` on a `None` value");
      }
      inner.value.Invalidate(token);
      return Ok(());
    }
  }
}
