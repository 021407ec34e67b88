/** The composition table of a node (kyute/src/composition.rs): a flat vector
    of scope starts, scope ends, node entries and state entries, walked by a
    `Composer` that reuses, rotates into place, inserts and deletes entries
    as a node is recomposed. */
module Composition {
  import opened Wrappers
  import opened CallKeys
  import opened SlotTable

  /** `Key` (kyute/src/key.rs): the source location of the call that made the entry. */
  datatype Key = Key(callerLocation: Location)

  /** `CompositionSlot`. The boxed `State` holds its key and a type-erased
      value. */
  datatype Entry =
    | ScopeStart(len: u32, key: Key)
    | ScopeEnd(key: Key)
    | Node(childIndex: u32, key: Key)
    | State(key: Key, data: Dyn)

  /** The type tag of `()`, and the `Box::new(())` that `extract_state` leaves
      in a state entry while its value is out. */
  const UNIT_TAG: TypeTag := 0
  const DUMMY: Dyn := Dyn(UNIT_TAG, 0)

  /** `CompositionSlot::len`: how many entries ahead the next entry at the
      same scope level is; a scope end has no next entry. */
  function Len(e: Entry): (r: nat)
    ensures e.ScopeStart? ==> r == e.len as nat
    ensures e.ScopeEnd? ==> r == 0
    ensures e.Node? || e.State? ==> r == 1
  {
    match e
    case ScopeStart(len, _) => len as nat
    case ScopeEnd(_) => 0
    case _ => 1
  }

  /** `CompositionSlot::set_len`: writes the length of a scope start, as
      `new_len as u32`; panics on any other entry. */
  function SetLen(e: Entry, newLen: nat): (r: Result<Entry>)
    ensures r.Ok? <==> e.ScopeStart?
    ensures r.Ok? ==> r.value == ScopeStart(AsU32(newLen), e.key)
    ensures r.Ok? && newLen < U32_LIMIT ==> Len(r.value) == newLen
  {
    match e
    case ScopeStart(_, key) => Ok(ScopeStart(AsU32(newLen), key))
    case _ => Panic("unexpected entry type")
  }

  /** An entry `find` can report for `key`: a scope start, node or state
      entry carrying it. */
  predicate Carries(e: Entry, key: Key) {
    !e.ScopeEnd? && e.key == key
  }

  // ---------------------------------------------------------------------------
  // Searching the current scope
  // ---------------------------------------------------------------------------

  /** The indices of the entries at the scope level of `i`, from `i` on: each
      one `Len` entries after the previous, up to the scope's end. */
  function Siblings(e: seq<Entry>, i: nat): (r: seq<nat>)
    ensures forall k :: 0 <= k < |r| ==> i <= r[k] < |e| && !e[r[k]].ScopeEnd?
    decreases |e| - i
  {
    if i >= |e| || e[i].ScopeEnd? then []
    else if Len(e[i]) == 0 then [i]
    else [i] + Siblings(e, i + Len(e[i]))
  }

  /** The first entry at the scope level of `i`, from `i` on, that carries
      `key`: what `find` is meant to return. */
  function LookupFrom(e: seq<Entry>, i: nat, key: Key): (r: Option<nat>)
    ensures r.Some? ==> i <= r.value < |e| && Carries(e[r.value], key)
    decreases |e| - i
  {
    if i >= |e| then None
    else if Carries(e[i], key) then Some(i)
    else if Len(e[i]) == 0 then None
    else LookupFrom(e, i + Len(e[i]), key)
  }

  function Lookup(e: seq<Entry>, key: Key): (r: Option<nat>)
    ensures r.Some? ==> r.value < |e| && Carries(e[r.value], key)
  {
    LookupFrom(e, 0, key)
  }

  /** The lookup finds the first sibling that carries the key, and reports
      nothing only when no sibling carries it. */
  lemma {:induction false} LookupFirstSibling(e: seq<Entry>, i: nat, key: Key)
    ensures LookupFrom(e, i, key).Some? ==>
              LookupFrom(e, i, key).value in Siblings(e, i)
              && forall k :: 0 <= k < |Siblings(e, i)| && Siblings(e, i)[k] < LookupFrom(e, i, key).value ==>
                   !Carries(e[Siblings(e, i)[k]], key)
    ensures LookupFrom(e, i, key).None? ==>
              forall k :: 0 <= k < |Siblings(e, i)| ==> !Carries(e[Siblings(e, i)[k]], key)
    decreases |e| - i
  {
    if i >= |e| || e[i].ScopeEnd? || Carries(e[i], key) || Len(e[i]) == 0 {
    } else {
      var n := Len(e[i]);
      LookupFirstSibling(e, i + n, key);
      var rest := Siblings(e, i + n);
      assert Siblings(e, i) == [i] + rest;
      forall k | 0 < k < |Siblings(e, i)|
        ensures Siblings(e, i)[k] == rest[k - 1]
      {
      }
    }
  }

  /** `Composer::find` as it is written: an entry that does not carry the key
      advances `i` inside the match and then once more by the length of the
      entry it lands on, which may lie past the end of the slice (a panic). */
  function FindAsWritten(e: seq<Entry>, i: nat, key: Key): (r: Result<Option<nat>>)
    ensures r.Ok? && r.value.Some? ==> i <= r.value.value < |e| && Carries(e[r.value.value], key)
    decreases if i < |e| then |e| - i else 0
  {
    if i >= |e| then Ok(None)
    else
      var j :=
        match e[i]
        case ScopeStart(len, _) => i + len as nat + 1
        case _ => i + 1;
      if e[i].ScopeEnd? then Ok(None)
      else if Carries(e[i], key) then Ok(Some(i))
      else if j >= |e| then Panic("index out of bounds")
      else FindAsWritten(e, j + Len(e[j]), key)
  }

  const KEY_A: Key := Key(Location("a.rs", 1, 1))
  const KEY_B: Key := Key(Location("a.rs", 2, 1))

  /** The written `find` skips the node right after a node that does not
      match: the scope `[node A, node B]`, searched for B, yields nothing. */
  lemma FindAsWrittenSkipsSibling()
    ensures FindAsWritten([Node(0, KEY_A), Node(1, KEY_B)], 0, KEY_B) == Ok(None)
    ensures Lookup([Node(0, KEY_A), Node(1, KEY_B)], KEY_B) == Some(1)
  {
    assert LookupFrom([Node(0, KEY_A), Node(1, KEY_B)], 1, KEY_B) == Some(1);
  }

  /** The written `find` indexes past the end when the last entry does not
      match: the top-level table `[node A]`, searched for B, panics. */
  lemma FindAsWrittenPastEnd()
    ensures FindAsWritten([Node(0, KEY_A)], 0, KEY_B).Panic?
    ensures Lookup([Node(0, KEY_A)], KEY_B) == None
  {
  }

  /** `Composer::find`, advancing by one `len()` per entry. */
  method Find(entries: seq<Entry>, key: Key) returns (r: Option<nat>)
    ensures r == Lookup(entries, key)
  {
    var i := 0;
    while i < |entries|
      invariant LookupFrom(entries, i, key) == Lookup(entries, key)
      decreases |entries| - i
    {
      var entry := entries[i];
      if Carries(entry, key) {
        return Some(i);
      }
      var n := Len(entry);
      if n == 0 {
        break;
      }
      i := i + n;
    }
    return None;
  }

  // ---------------------------------------------------------------------------
  // Edits of the table
  // ---------------------------------------------------------------------------

  /** `slice::rotate_left(m)`. */
  function RotateLeft<T>(s: seq<T>, m: nat): (r: seq<T>)
    requires m <= |s|
    ensures |r| == |s|
  {
    s[m..] + s[..m]
  }

  /** The rotation moves every element `m` places towards the front,
      cyclically, and keeps the same elements. */
  lemma {:induction false} RotateLeftSpec<T>(s: seq<T>, m: nat)
    requires m <= |s|
    ensures forall k :: 0 <= k < |s| ==> RotateLeft(s, m)[k] == s[(k + m) % |s|]
    ensures multiset(RotateLeft(s, m)) == multiset(s)
  {
    assert s == s[..m] + s[m..];
    forall k | 0 <= k < |s|
      ensures RotateLeft(s, m)[k] == s[(k + m) % |s|]
    {
      RotateLeftIndex(s, m, k);
    }
  }

  lemma {:induction false} RotateLeftIndex<T>(s: seq<T>, m: nat, k: nat)
    requires m <= |s| && k < |s|
    ensures RotateLeft(s, m)[k] == s[(k + m) % |s|]
  {
    if k < |s| - m {
      assert (k + m) % |s| == k + m;
      assert RotateLeft(s, m)[k] == s[m..][k];
    } else {
      assert (k + m) % |s| == k + m - |s|;
      assert RotateLeft(s, m)[k] == s[..m][k - (|s| - m)];
    }
  }

  /** `Vec::insert(i, x)`. */
  function InsertAt(t: seq<Entry>, i: nat, x: Entry): (r: seq<Entry>)
    requires i <= |t|
    ensures |r| == |t| + 1 && r[i] == x && r[..i] == t[..i] && r[i + 1..] == t[i..]
  {
    t[..i] + [x] + t[i..]
  }

  /** The table after `rotate(key)` at `pos`. */
  function Rotated(t: seq<Entry>, pos: nat, key: Key): (r: seq<Entry>)
    requires pos <= |t|
    ensures |r| == |t|
  {
    match Lookup(t[pos..], key)
    case None => t
    case Some(i) => t[..pos] + RotateLeft(t[pos..], i)
  }

  /** `rotate` keeps the table a permutation of itself and its entries
      before `pos` in place, and on a hit brings the found entry to `pos`. */
  lemma {:induction false} RotatedSpec(t: seq<Entry>, pos: nat, key: Key)
    requires pos <= |t|
    ensures Rotated(t, pos, key)[..pos] == t[..pos]
    ensures multiset(Rotated(t, pos, key)) == multiset(t)
    ensures Lookup(t[pos..], key).None? ==> Rotated(t, pos, key) == t
    ensures Lookup(t[pos..], key).Some? ==>
              pos < |t| && Rotated(t, pos, key)[pos] == t[pos + Lookup(t[pos..], key).value]
              && Carries(Rotated(t, pos, key)[pos], key)
  {
    match Lookup(t[pos..], key)
    case None =>
    case Some(i) =>
      var tail := t[pos..];
      RotateLeftSpec(tail, i);
      assert t == t[..pos] + tail;
      assert multiset(Rotated(t, pos, key)) == multiset(t[..pos]) + multiset(RotateLeft(tail, i));
      assert RotateLeft(tail, i)[0] == tail[i];
  }

  /** The first scope end carrying `key` at or after `from`: the
      `iter().position(..)` of `exit`. */
  function ScopeEndFrom(t: seq<Entry>, from: nat, key: Key): (r: Option<nat>)
    ensures r.Some? ==> from <= r.value < |t| && t[r.value] == ScopeEnd(key)
    ensures r.Some? ==> forall k :: from <= k < r.value ==> t[k] != ScopeEnd(key)
    ensures r.None? ==> forall k :: from <= k < |t| ==> t[k] != ScopeEnd(key)
    decreases |t| - from
  {
    if from >= |t| then None
    else if t[from] == ScopeEnd(key) then Some(from)
    else ScopeEndFrom(t, from + 1, key)
  }

  /** The parent-scope stack of the composer: empty at the top level, its
      bottom holding the top level's `None` and every other entry a scope
      start before `pos`. */
  ghost predicate StackOk(stack: seq<Option<nat>>, scopeStart: Option<nat>, pos: nat) {
    (scopeStart.None? <==> stack == [])
    && (scopeStart.Some? ==> scopeStart.value < pos)
    && forall i :: 0 <= i < |stack| ==>
         (stack[i].None? <==> i == 0) && (stack[i].Some? ==> stack[i].value < pos)
  }

  /** `Composer`. */
  class Composer {
    /** The composition table. */
    var table: seq<Entry>
    /** The write index. */
    var pos: nat
    /** The index of the current scope's start, `None` at the top level. */
    var scopeStart: Option<nat>
    /** The enclosing scopes' starts. */
    var stack: seq<Option<nat>>

    ghost predicate Valid()
      reads this
    {
      pos <= |table| && StackOk(stack, scopeStart, pos)
    }

    /** `Composer::new`: at the top of the table, at the top level. */
    constructor (table: seq<Entry>)
      ensures this.table == table && pos == 0 && scopeStart == None && stack == []
      ensures Valid()
    {
      this.table := table;
      pos := 0;
      scopeStart := None;
      stack := [];
    }

    /** `Composer::restart`: back to the top of the table; panics when a
        scope is still open. */
    method Restart() returns (r: Result<()>)
      modifies this
      ensures r.Panic? <==> old(stack) != []
      ensures r.Ok? ==> pos == 0 && scopeStart == None && stack == [] && table == old(table) && Valid()
    {
      if stack != [] {
        return Panic("assertion failed: self.stack.is_empty()");
      }
      pos := 0;
      scopeStart := None;
      return Ok(());
    }

    /** `Composer::insert`: the entry goes in at `pos`; the cursor stays. */
    method Insert(entry: Entry)
      requires Valid()
      modifies this
      ensures table == InsertAt(old(table), old(pos), entry)
      ensures pos == old(pos) && scopeStart == old(scopeStart) && stack == old(stack) && Valid()
    {
      table := table[..pos] + [entry] + table[pos..];
    }

    /** `Composer::rotate`: reports whether an entry of the current scope
        carries `key`, and if so rotates `table[pos..]` to bring it to `pos`. */
    method Rotate(key: Key) returns (found: bool)
      requires Valid()
      modifies this
      ensures found == Lookup(old(table)[old(pos)..], key).Some?
      ensures table == Rotated(old(table), old(pos), key)
      ensures pos == old(pos) && scopeStart == old(scopeStart) && stack == old(stack) && Valid()
    {
      var scope := table[pos..];
      var r := Find(scope, key);
      if r.Some? {
        table := table[..pos] + RotateLeft(scope, r.value);
        return true;
      }
      return false;
    }

    /** `Composer::rotate_node`: the child index of the node found for `key`;
        panics when the entry found is not a node. */
    method RotateNode(key: Key) returns (r: Result<Option<u32>>)
      requires Valid()
      modifies this
      ensures table == Rotated(old(table), old(pos), key)
      ensures pos == old(pos) && scopeStart == old(scopeStart) && stack == old(stack) && Valid()
      ensures var hit := Lookup(old(table)[old(pos)..], key).Some?;
              (r.Panic? <==> hit && !table[pos].Node?)
              && (r.Ok? ==> (r.value.Some? <==> hit) && (hit ==> r.value.value == table[pos].childIndex))
    {
      var found := Rotate(key);
      if !found {
        return Ok(None);
      }
      RotatedSpec(old(table), pos, key);
      match table[pos]
      case Node(childIndex, _) => return Ok(Some(childIndex));
      case _ => return Panic("unexpected entry type");
    }

    /** `Composer::rotate_state`: the value of the state found for `key`;
        panics when the entry found is not a state. */
    method RotateState(key: Key) returns (r: Result<Option<Dyn>>)
      requires Valid()
      modifies this
      ensures table == Rotated(old(table), old(pos), key)
      ensures pos == old(pos) && scopeStart == old(scopeStart) && stack == old(stack) && Valid()
      ensures var hit := Lookup(old(table)[old(pos)..], key).Some?;
              (r.Panic? <==> hit && !table[pos].State?)
              && (r.Ok? ==> (r.value.Some? <==> hit) && (hit ==> r.value.value == table[pos].data))
    {
      var found := Rotate(key);
      if !found {
        return Ok(None);
      }
      RotatedSpec(old(table), pos, key);
      match table[pos]
      case State(_, data) => return Ok(Some(data));
      case _ => return Panic("unexpected entry type");
    }

    /** `Composer::current_scope_key`: the key of the current scope's start;
        panics at the top level or when that entry is not a scope start. */
    function CurrentScopeKey(): (r: Result<Key>)
      requires Valid()
      reads this
      ensures r.Ok? <==> scopeStart.Some? && table[scopeStart.value].ScopeStart?
      ensures r.Ok? ==> r.value == table[scopeStart.value].key
    {
      match scopeStart
      case None => Panic("called `Option::unwrap()` on a `None` value")
      case Some(s) =>
        match table[s]
        case ScopeStart(_, key) => Ok(key)
        case _ => Panic("expected scope start")
    }

    /** `Composer::enter`: reuses the scope found for `key`, or inserts an
        empty one (a start of length 2 and its end); then the scope becomes
        current and the cursor steps into it. Returns whether it was created. */
    method Enter(key: Key) returns (justCreated: bool)
      requires Valid()
      modifies this
      ensures justCreated <==> Lookup(old(table)[old(pos)..], key).None?
      ensures justCreated ==>
                table == InsertAt(InsertAt(old(table), old(pos), ScopeStart(2, key)), old(pos) + 1, ScopeEnd(key))
      ensures !justCreated ==> table == Rotated(old(table), old(pos), key)
      ensures stack == old(stack) + [old(scopeStart)] && scopeStart == Some(old(pos)) && pos == old(pos) + 1
      ensures Valid()
    {
      var found := Rotate(key);
      if !found {
        RotatedSpec(old(table), pos, key);
        table := InsertAt(table, pos, ScopeStart(2, key));
        table := InsertAt(table, pos + 1, ScopeEnd(key));
      } else {
        RotatedSpec(old(table), pos, key);
      }
      justCreated := !found;
      stack := stack + [scopeStart];
      scopeStart := Some(pos);
      pos := pos + 1;
    }

    /** `Composer::exit`: removes the entries from the cursor up to the
        current scope's end, steps past that end, records the scope's length
        (`pos - scope_start`, as a `u32`) and returns to the parent scope.
        Panics at the top level, when the current scope's start is not a
        scope start, and when no end for its key follows. */
    method Exit() returns (r: Result<()>)
      requires Valid()
      modifies this
      ensures r.Panic? <==>
                old(CurrentScopeKey()).Panic?
                || ScopeEndFrom(old(table), old(pos), old(CurrentScopeKey()).value).None?
      ensures r.Ok? ==>
                var start := old(scopeStart).value;
                var end := ScopeEndFrom(old(table), old(pos), old(CurrentScopeKey()).value).value;
                table == (old(table)[..old(pos)] + old(table)[end..])[start := ScopeStart(AsU32(old(pos) + 1 - start), old(table)[start].key)]
                && pos == old(pos) + 1
                && scopeStart == old(stack)[|old(stack)| - 1] && stack == old(stack)[..|old(stack)| - 1]
                && Valid()
    {
      var scopeKey :- CurrentScopeKey();
      var rel := ScopeEndFrom(table, pos, scopeKey);
      if rel.None? {
        return Panic("end of scope not found");
      }
      var end := rel.value;
      table := table[..pos] + table[end..];
      pos := pos + 1;
      var start := scopeStart.value;
      var updated := SetLen(table[start], pos - start);
      assert updated.Ok?;
      table := table[start := updated.value];
      scopeStart := stack[|stack| - 1];
      stack := stack[..|stack| - 1];
      return Ok(());
    }

    /** `Composer::extract_state`: emits the state entry for `key` at the
        cursor and takes its value out, leaving the dummy in its place; a new
        entry gets the value `init()`. Returns the entry's index with the
        value; panics when the entry found for `key` is not a state. */
    method ExtractState(key: Key, init: () -> Dyn) returns (r: Result<(nat, Dyn)>)
      requires Valid()
      modifies this
      ensures var rotated := Rotated(old(table), old(pos), key);
              var hit := Lookup(old(table)[old(pos)..], key).Some?;
              && (r.Panic? <==> hit && !rotated[old(pos)].State?)
              && (r.Ok? && hit ==>
                    r.value.1 == rotated[old(pos)].data
                    && table == rotated[old(pos) := State(rotated[old(pos)].key, DUMMY)])
              && (r.Ok? && !hit ==>
                    r.value.1 == init() && table == InsertAt(old(table), old(pos), State(key, DUMMY)))
      ensures r.Ok? ==>
                r.value.0 == old(pos) && pos == old(pos) + 1
                && scopeStart == old(scopeStart) && stack == old(stack) && Valid()
    {
      var state :- RotateState(key);
      RotatedSpec(old(table), pos, key);
      var data;
      if state.Some? {
        data := state.value;
        table := table[pos := State(table[pos].key, DUMMY)];
      } else {
        Insert(State(key, DUMMY));
        data := init();
      }
      var p := pos;
      pos := pos + 1;
      return Ok((p, data));
    }

    /** `Composer::write_state`: stores `data` into the state entry at
        `index`; panics when there is none there. */
    method WriteState(index: nat, data: Dyn) returns (r: Result<()>)
      modifies this
      ensures r.Panic? <==> index >= |old(table)| || !old(table)[index].State?
      ensures r.Ok? ==> table == old(table)[index := State(old(table)[index].key, data)]
      ensures pos == old(pos) && scopeStart == old(scopeStart) && stack == old(stack)
    {
      if index >= |table| {
        return Panic("index out of bounds");
      }
      match table[index]
      case State(key, _) =>
        table := table[index := State(key, data)];
        return Ok(());
      case _ =>
        return Panic("unexpected entry type");
    }

    /** `Composer::emit_node`: emits the node entry for `key` at the cursor.
        Returns the child index stored in the entry found, or for a new entry
        `parent_child_count`, which the entry stores as a `u32`; panics when
        the entry found for `key` is not a node. */
    method EmitNode(key: Key, parentChildCount: nat) returns (r: Result<nat>)
      requires Valid()
      modifies this
      ensures var rotated := Rotated(old(table), old(pos), key);
              var hit := Lookup(old(table)[old(pos)..], key).Some?;
              && (r.Panic? <==> hit && !rotated[old(pos)].Node?)
              && (r.Ok? && hit ==> r.value == rotated[old(pos)].childIndex as nat && table == rotated)
              && (r.Ok? && !hit ==>
                    r.value == parentChildCount
                    && table == InsertAt(old(table), old(pos), Node(AsU32(parentChildCount), key)))
      ensures r.Ok? ==> pos == old(pos) + 1 && scopeStart == old(scopeStart) && stack == old(stack) && Valid()
    {
      var childIndex :- RotateNode(key);
      var index: nat;
      if childIndex.Some? {
        index := childIndex.value as nat;
      } else {
        Insert(Node(AsU32(parentChildCount), key));
        index := parentChildCount;
      }
      pos := pos + 1;
      return Ok(index);
    }

    /** `Composer::finish`: the table without the entries after the cursor,
        which were not visited. */
    method Finish() returns (result: seq<Entry>)
      requires Valid()
      modifies this
      ensures result == old(table)[..old(pos)] && table == result
    {
      table := table[..pos];
      return table;
    }
  }

  /** Entering a scope and leaving it straight away leaves an empty scope of
      length 2 at the cursor and the cursor after it, back in the parent
      scope. A scope that was not in the table can always be left. */
  method EnterExitEmpty(c: Composer, key: Key) returns (created: bool, r: Result<()>)
    requires c.Valid()
    modifies c
    ensures created ==> r.Ok?
    ensures r.Ok? ==>
              c.pos == old(c.pos) + 2 && c.pos <= |c.table|
              && c.table[..old(c.pos)] == old(c.table)[..old(c.pos)]
              && c.table[old(c.pos)] == ScopeStart(2, key) && c.table[old(c.pos) + 1] == ScopeEnd(key)
              && c.scopeStart == old(c.scopeStart) && c.stack == old(c.stack)
  {
    ghost var p := c.pos;
    ghost var t0 := c.table;
    created := c.Enter(key);
    RotatedSpec(t0, p, key);
    ghost var t1 := c.table;
    if created {
      assert t1[p] == ScopeStart(2, key) && t1[p + 1] == ScopeEnd(key);
      assert c.CurrentScopeKey() == Ok(key);
      assert ScopeEndFrom(t1, p + 1, key) == Some(p + 1);
    }
    r := c.Exit();
    if r.Ok? {
      assert t1[..p] == t0[..p];
      assert t1[p].key == key;
    }
  }

  /** `extract_state` followed by `write_state` at the index it returned puts
      the new value into the state entry for `key`, at the old cursor. */
  method ExtractThenWrite(c: Composer, key: Key, init: () -> Dyn, data: Dyn) returns (r: Result<(nat, Dyn)>, w: Result<()>)
    requires c.Valid()
    modifies c
    ensures r.Ok? ==> w.Ok? && r.value.0 < |c.table| && c.table[r.value.0] == State(key, data) && r.value.0 + 1 == c.pos
  {
    r := c.ExtractState(key, init);
    if r.Panic? {
      w := Ok(());
      return;
    }
    RotatedSpec(old(c.table), old(c.pos), key);
    w := c.WriteState(r.value.0, data);
  }
}
