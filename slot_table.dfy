/** The slot table of the positional cache (kyute/src/cache.rs): slots, their
    group structure, the group map, and invalidation. */
module SlotTable {
  import opened Wrappers
  import opened CallKeys

  /** Concrete type of a type-erased value (`TypeId`). */
  type TypeTag = nat

  /** `Box<dyn Any>`: a value carrying the tag of its type; downcasting to a
      different tag fails. */
  datatype Dyn = Dyn(tag: TypeTag, payload: int)

  /** `Data::same`, supplied by the caller; no law is assumed about it. */
  type Same = (Dyn, Dyn) -> bool

  /** `GroupKey`: slotmap keys are modelled as fresh naturals. */
  type GroupKey = nat

  /** `Group`: invalidation metadata of a group. */
  datatype Group = Group(parent: Option<GroupKey>, dirty: bool)

  /** `Slot`. */
  datatype Slot =
    | StartGroup(key: CallKey, groupKey: GroupKey, len: u32)
    | EndGroup
    | Value(key: CallKey, value: Dyn)
    | Placeholder(key: CallKey)

  /** The slots a key search can return: a group start or a value with that key
      (never a placeholder). */
  predicate Matches(s: Slot, key: CallKey) {
    (s.StartGroup? || s.Value?) && s.key == key
  }

  // ---------------------------------------------------------------------------
  // Shapes: what a slot contributes to the group structure
  // ---------------------------------------------------------------------------

  /** The structural part of a slot: a group start with its recorded length, a
      group end, or a leaf (value or placeholder). */
  datatype Shape = Open(len: nat) | Close | Leaf

  function ShapeOf(s: Slot): Shape {
    match s
    case StartGroup(_, _, len) => Open(len as nat)
    case EndGroup => Close
    case _ => Leaf
  }

  function Shapes(s: seq<Slot>): (r: seq<Shape>)
    ensures |r| == |s|
    ensures forall i {:trigger r[i]} :: 0 <= i < |s| ==> r[i] == ShapeOf(s[i])
  {
    seq(|s|, i requires 0 <= i < |s| => ShapeOf(s[i]))
  }

  lemma {:induction false} ShapesConcat(a: seq<Slot>, b: seq<Slot>)
    ensures Shapes(a + b) == Shapes(a) + Shapes(b)
  {
  }

  lemma {:induction false} ShapesSlice(s: seq<Slot>, lo: nat, hi: nat)
    requires lo <= hi <= |s|
    ensures Shapes(s[lo..hi]) == Shapes(s)[lo..hi]
    ensures Shapes(s[lo..]) == Shapes(s)[lo..]
    ensures Shapes(s[..hi]) == Shapes(s)[..hi]
  {
  }

  lemma {:induction false} ShapesUpdate(s: seq<Slot>, i: nat, x: Slot)
    requires i < |s|
    ensures Shapes(s[i := x]) == Shapes(s)[i := ShapeOf(x)]
  {
  }

  /** Number of slots the item starting with `h` spans. */
  function ItemLen(h: Shape): nat {
    match h
    case Open(n) => n
    case _ => 1
  }

  /** A sequence of complete items: leaves, and groups whose recorded length
      is their exact span, from the group start to just past its matching end,
      with a forest in between. This is "groups are balanced and each closed
      group's `len` equals its span". */
  predicate Forest(sh: seq<Shape>)
    decreases |sh|
  {
    if sh == [] then true
    else match sh[0]
      case Close => false
      case Leaf => Forest(sh[1..])
      case Open(n) => 2 <= n <= |sh| && sh[n - 1] == Close && Forest(sh[1..n - 1]) && Forest(sh[n..])
  }

  /** The first item of a non-empty forest is itself a forest, and so is the rest. */
  lemma {:induction false} ForestHead(sh: seq<Shape>)
    requires Forest(sh) && sh != []
    ensures sh[0] != Close
    ensures 1 <= ItemLen(sh[0]) <= |sh|
    ensures Forest(sh[..ItemLen(sh[0])]) && Forest(sh[ItemLen(sh[0])..])
  {
    var n := ItemLen(sh[0]);
    var item := sh[..n];
    match sh[0]
    case Leaf =>
      assert item[1..] == [];
    case Open(len) =>
      assert item[1..len - 1] == sh[1..len - 1];
      assert item[len..] == [];
  }

  /** Concatenating two forests gives a forest. */
  lemma {:induction false} ForestConcat(a: seq<Shape>, b: seq<Shape>)
    requires Forest(a) && Forest(b)
    ensures Forest(a + b)
    decreases |a|
  {
    if a == [] {
      assert a + b == b;
    } else {
      var n := ItemLen(a[0]);
      ForestHead(a);
      ForestConcat(a[n..], b);
      assert (a + b)[n..] == a[n..] + b;
      match a[0]
      case Leaf =>
      case Open(len) =>
        assert (a + b)[1..len - 1] == a[1..len - 1];
    }
  }

  /** A closed group: its start with the right length, a forest, its end. */
  lemma {:induction false} ForestGroup(body: seq<Shape>)
    requires Forest(body)
    ensures Forest([Open(|body| + 2)] + body + [Close])
  {
    var g := [Open(|body| + 2)] + body + [Close];
    assert g[1..|body| + 1] == body;
    assert g[|body| + 2..] == [];
  }

  /** `m` splits the forest `sh` between two of its top-level items. */
  predicate IsBoundary(sh: seq<Shape>, m: nat) {
    m <= |sh| && Forest(sh[..m]) && Forest(sh[m..])
  }

  /** A boundary after the start of a forest lies at or after the end of the
      first item, and is a boundary of what follows that item. */
  lemma {:induction false} BoundaryAfterFirst(sh: seq<Shape>, m: nat)
    requires Forest(sh) && IsBoundary(sh, m) && 0 < m
    ensures ItemLen(sh[0]) <= m
    ensures IsBoundary(sh[ItemLen(sh[0])..], m - ItemLen(sh[0]))
  {
    var n := ItemLen(sh[0]);
    var p := sh[..m];
    assert p[0] == sh[0];
    ForestHead(p);
    assert p[n..] == sh[n..m];
    assert sh[n..][..m - n] == sh[n..m];
    assert sh[n..][m - n..] == sh[m..];
  }

  /** Conversely, a boundary of what follows the first item is a boundary of
      the whole forest. */
  lemma {:induction false} BoundaryShift(sh: seq<Shape>, m: nat)
    requires Forest(sh) && sh != [] && IsBoundary(sh[ItemLen(sh[0])..], m)
    ensures IsBoundary(sh, ItemLen(sh[0]) + m)
  {
    var n := ItemLen(sh[0]);
    ForestHead(sh);
    var rest := sh[n..];
    var head := sh[..n];
    var mid := rest[..m];
    assert Forest(head) && Forest(mid);
    ForestConcat(head, mid);
    assert sh[..n + m] == head + mid;
    assert sh[n + m..] == rest[m..];
  }

  // ---------------------------------------------------------------------------
  // Key search inside a forest
  // ---------------------------------------------------------------------------

  /** The slots `s[i..e]` are a sequence of whole items. */
  ghost predicate Items(s: seq<Slot>, i: nat, e: nat)
    requires i <= e <= |s|
  {
    Forest(Shapes(s[i..e]))
  }

  /** `i <= m <= e` splits `s[i..e]` between two of its top-level items. */
  ghost predicate SplitsAt(s: seq<Slot>, i: nat, m: nat, e: nat)
    requires i <= m <= e <= |s|
  {
    Items(s, i, m) && Items(s, m, e)
  }

  /** The walk over the items of a forest `s[i..e]`: the item at `i` is not a
      group end, it is a forest of `ItemLen` slots, and the rest is a forest. */
  lemma {:induction false} ItemStep(s: seq<Slot>, i: nat, e: nat)
    requires i < e <= |s| && Items(s, i, e)
    ensures !s[i].EndGroup?
    ensures 1 <= ItemLen(ShapeOf(s[i])) && i + ItemLen(ShapeOf(s[i])) <= e
    ensures Items(s, i, i + ItemLen(ShapeOf(s[i])))
    ensures Items(s, i + ItemLen(ShapeOf(s[i])), e)
  {
    var rest := s[i..e];
    var sh := Shapes(rest);
    var n := ItemLen(ShapeOf(s[i]));
    assert sh[0] == ShapeOf(s[i]);
    ForestHead(sh);
    var head := rest[..n];
    var tail := rest[n..];
    assert Shapes(head) == sh[..n] by { ShapesSlice(rest, 0, n); }
    assert Shapes(tail) == sh[n..] by { ShapesSlice(rest, n, |rest|); }
    assert head == s[i..i + n];
    assert tail == s[i + n..e];
  }

  /** A split after the first item of `s[i..e]` is a split of what follows
      that item. */
  lemma {:induction false} SplitAfterFirst(s: seq<Slot>, i: nat, m: nat, e: nat)
    requires i < m <= e <= |s| && SplitsAt(s, i, m, e)
    ensures i + ItemLen(ShapeOf(s[i])) <= m && SplitsAt(s, i + ItemLen(ShapeOf(s[i])), m, e)
  {
    ItemStep(s, i, m);
  }

  /** Conversely, a split of what follows the first item is a split of the
      whole. */
  lemma {:induction false} SplitShift(s: seq<Slot>, i: nat, m: nat, e: nat)
    requires i < e <= |s| && Items(s, i, e)
    requires i + ItemLen(ShapeOf(s[i])) <= m <= e && SplitsAt(s, i + ItemLen(ShapeOf(s[i])), m, e)
    ensures SplitsAt(s, i, m, e)
  {
    var n := ItemLen(ShapeOf(s[i]));
    ItemStep(s, i, e);
    assert s[i..m] == s[i..i + n] + s[i + n..m];
    ShapesConcat(s[i..i + n], s[i + n..m]);
    ForestConcat(Shapes(s[i..i + n]), Shapes(s[i + n..m]));
  }

  /** `find_tag_in_current_group` as a function: the index of the first item of
      `s[i..e]` that is a group start or a value with `key`. Items that do not
      match are skipped whole and the search ends at an `EndGroup`. In a forest
      no item has length 0 or runs past `e`, so the guard for those cases never
      applies there. */
  function FindFrom(s: seq<Slot>, i: nat, e: nat, key: CallKey): (r: Option<nat>)
    requires i <= e <= |s|
    ensures r.Some? ==> i <= r.value < e && Matches(s[r.value], key)
    decreases e - i
  {
    if i == e then None
    else if Matches(s[i], key) then Some(i)
    else if s[i].EndGroup? then None
    else
      var n := ItemLen(ShapeOf(s[i]));
      if n == 0 || e - i < n then None
      else FindFrom(s, i + n, e, key)
  }

  /** `FindFrom` finds exactly the first sibling carrying the key: what it
      returns is a split point whose slot matches, and no other split point
      before it, or anywhere when it returns nothing, holds a match. */
  lemma {:induction false} FindFromFirst(s: seq<Slot>, i: nat, e: nat, key: CallKey)
    requires i <= e <= |s| && Items(s, i, e)
    ensures FindFrom(s, i, e, key).Some? ==> SplitsAt(s, i, FindFrom(s, i, e, key).value, e)
    ensures forall m :: i <= m < e && SplitsAt(s, i, m, e) && Matches(s[m], key) ==>
              FindFrom(s, i, e, key).Some? && FindFrom(s, i, e, key).value <= m
    decreases e - i
  {
    if i == e {
    } else if Matches(s[i], key) {
      assert s[i..i] == [];
    } else {
      ItemStep(s, i, e);
      var n := ItemLen(ShapeOf(s[i]));
      var r := FindFrom(s, i + n, e, key);
      assert FindFrom(s, i, e, key) == r;
      FindFromFirst(s, i + n, e, key);
      if r.Some? {
        SplitShift(s, i, r.value, e);
      }
      forall m | i <= m < e && SplitsAt(s, i, m, e) && Matches(s[m], key)
        ensures r.Some? && r.value <= m
      {
        SplitAfterFirst(s, i, m, e);
      }
    }
  }

  // ---------------------------------------------------------------------------
  // Group keys held by the slots
  // ---------------------------------------------------------------------------

  /** The group keys of the group starts in `s`, with multiplicity. */
  function StartKeys(s: seq<Slot>): multiset<GroupKey>
    decreases |s|
  {
    if s == [] then multiset{}
    else (if s[0].StartGroup? then multiset{s[0].groupKey} else multiset{}) + StartKeys(s[1..])
  }

  lemma {:induction false} StartKeysConcat(a: seq<Slot>, b: seq<Slot>)
    ensures StartKeys(a + b) == StartKeys(a) + StartKeys(b)
    decreases |a|
  {
    if a == [] {
      assert a + b == b;
    } else {
      assert (a + b)[1..] == a[1..] + b;
      StartKeysConcat(a[1..], b);
    }
  }

  lemma {:induction false} StartKeysSplit(s: seq<Slot>, i: nat)
    requires i < |s|
    ensures StartKeys(s) == StartKeys(s[..i]) + StartKeys([s[i]]) + StartKeys(s[i + 1..])
  {
    var a, b, c := s[..i], [s[i]], s[i + 1..];
    assert a + b + c == s;
    StartKeysConcat(a + b, c);
    StartKeysConcat(a, b);
  }

  lemma {:induction false} StartKeyIn(s: seq<Slot>, i: nat)
    requires i < |s| && s[i].StartGroup?
    ensures s[i].groupKey in StartKeys(s)
  {
    StartKeysSplit(s, i);
    assert StartKeys([s[i]]) == multiset{s[i].groupKey} by {
      assert [s[i]][1..] == [];
    }
  }

  /** Replacing a slot by one that holds the same group key, if any, keeps the
      group keys. */
  lemma {:induction false} StartKeysUpdate(s: seq<Slot>, i: nat, x: Slot)
    requires i < |s| && s[i].StartGroup? == x.StartGroup?
    requires x.StartGroup? ==> x.groupKey == s[i].groupKey
    ensures StartKeys(s[i := x]) == StartKeys(s)
  {
    var t := s[i := x];
    StartKeysSplit(s, i);
    StartKeysSplit(t, i);
    assert t[..i] == s[..i] && t[i + 1..] == s[i + 1..];
    assert [s[i]][1..] == [] && [x][1..] == [];
  }

  /** The set of group keys held by the group starts in `s`. */
  ghost function KeySet(s: seq<Slot>): set<GroupKey> {
    set k | k in StartKeys(s)
  }

  /** The keys in the group map are exactly the group keys of the group starts
      in the table, each held by one group start. */
  ghost predicate KeysMatch(slots: seq<Slot>, groups: map<GroupKey, Group>) {
    StartKeys(slots) == multiset(groups.Keys)
  }

  /** Removing from the group map every key held by the deleted slots `d`
      leaves the map matching the remaining slots, and the keys of the group
      starts that remain are still present. */
  lemma {:induction false} RemoveDeadKeys(groups: map<GroupKey, Group>, a: seq<Slot>, d: seq<Slot>, b: seq<Slot>)
    requires KeysMatch(a + d + b, groups)
    ensures KeysMatch(a + b, groups - KeySet(d))
    ensures forall i :: 0 <= i < |a| && a[i].StartGroup? ==> a[i].groupKey in groups - KeySet(d)
  {
    StartKeysConcat(a + d, b);
    StartKeysConcat(a, d);
    StartKeysConcat(a, b);
    var ka, kd, kb := StartKeys(a), StartKeys(d), StartKeys(b);
    var live := groups.Keys;
    var dead := KeySet(d);
    assert (groups - dead).Keys == live - dead;
    forall x
      ensures (ka + kb)[x] == multiset(live - dead)[x]
    {
      assert (ka + kd + kb)[x] == multiset(live)[x] <= 1;
      if x in kd {
        assert x in dead;
      } else {
        assert x !in dead;
      }
    }
    assert ka + kb == multiset(live - dead);
    forall i | 0 <= i < |a| && a[i].StartGroup?
      ensures a[i].groupKey in groups - dead
    {
      var x := a[i].groupKey;
      StartKeyIn(a, i);
      assert (ka + kd + kb)[x] == multiset(live)[x] <= 1;
      assert x !in dead;
    }
  }

  /** Inserting slots adds their group keys. */
  lemma {:induction false} StartKeysInsert(s: seq<Slot>, i: nat, x: seq<Slot>)
    requires i <= |s|
    ensures StartKeys(s[..i] + x + s[i..]) == StartKeys(s) + StartKeys(x)
  {
    var pre, post := s[..i], s[i..];
    var kp, kx, kq := StartKeys(pre), StartKeys(x), StartKeys(post);
    assert StartKeys(s) == kp + kq by {
      assert pre + post == s;
      StartKeysConcat(pre, post);
    }
    assert StartKeys(pre + x + post) == kp + kx + kq by {
      StartKeysConcat(pre + x, post);
      StartKeysConcat(pre, x);
    }
    assert kp + kx + kq == kp + kq + kx;
  }

  /** A group's parent was created before it, so its key is smaller. */
  predicate ParentsBelow(groups: map<GroupKey, Group>) {
    forall g :: g in groups && groups[g].parent.Some? ==> groups[g].parent.value < g
  }

  predicate KeysBelow(groups: map<GroupKey, Group>, next: nat) {
    forall g :: g in groups ==> g < next
  }

  // ---------------------------------------------------------------------------
  // Invalidation
  // ---------------------------------------------------------------------------

  /** The groups reached from `g` by following `parent` links while they name
      groups that are still in the map. */
  ghost function Chain(groups: map<GroupKey, Group>, g: GroupKey): set<GroupKey>
    requires ParentsBelow(groups)
    decreases g
  {
    if g !in groups then {}
    else match groups[g].parent
      case None => {g}
      case Some(p) => {g} + Chain(groups, p)
  }

  /** `invalidate_group` as a function of the group map. */
  function MarkDirty(groups: map<GroupKey, Group>, g: GroupKey): (r: map<GroupKey, Group>)
    requires ParentsBelow(groups)
    ensures r.Keys == groups.Keys
    ensures forall h :: h in groups ==> r[h].parent == groups[h].parent
    ensures ParentsBelow(r)
    decreases g
  {
    if g !in groups then groups
    else
      var marked := groups[g := groups[g].(dirty := true)];
      match groups[g].parent
      case None => marked
      case Some(p) => MarkDirty(marked, p)
  }

  lemma {:induction false} ChainSameParents(a: map<GroupKey, Group>, b: map<GroupKey, Group>, g: GroupKey)
    requires ParentsBelow(a) && ParentsBelow(b)
    requires a.Keys == b.Keys && forall h :: h in a ==> a[h].parent == b[h].parent
    ensures Chain(a, g) == Chain(b, g)
    decreases g
  {
    if g in a && a[g].parent.Some? {
      ChainSameParents(a, b, a[g].parent.value);
    }
  }

  /** Invalidating `g` marks dirty exactly the groups on its parent chain and
      leaves every other flag as it was; a key no longer in the map changes
      nothing. */
  lemma {:induction false} MarkDirtyMarksChain(groups: map<GroupKey, Group>, g: GroupKey)
    requires ParentsBelow(groups)
    ensures g !in groups ==> MarkDirty(groups, g) == groups
    ensures forall h :: h in groups ==>
              MarkDirty(groups, g)[h].dirty == (groups[h].dirty || h in Chain(groups, g))
    decreases g
  {
    if g in groups {
      var marked := groups[g := groups[g].(dirty := true)];
      match groups[g].parent
      case None =>
      case Some(p) =>
        MarkDirtyMarksChain(marked, p);
        ChainSameParents(marked, groups, p);
    }
  }

  /** `CacheInner`. The `revision` counter of the source is never read or
      changed, so it is not modelled. */
  class CacheInner {
    var slots: seq<Slot>
    var groups: map<GroupKey, Group>
    /** Next fresh group key. */
    var nextKey: nat

    /** Group map and slots agree, parents precede their children, and every
        key in use is below `nextKey`. Holds during a run too. */
    ghost predicate Consistent()
      reads this
    {
      KeysMatch(slots, groups) && ParentsBelow(groups) && KeysBelow(groups, nextKey)
    }

    /** A table between runs: consistent, and the slots are a forest. */
    ghost predicate WellFormed()
      reads this
    {
      Consistent() && Forest(Shapes(slots))
    }

    /** `CacheInner::new`: a root group with call key 0, clean and parentless. */
    constructor ()
      ensures WellFormed()
      ensures slots == [StartGroup(CallKey(0), 0, 2), EndGroup]
      ensures groups == map[0 := Group(None, false)]
    {
      slots := [StartGroup(CallKey(0), 0, 2), EndGroup];
      groups := map[0 := Group(None, false)];
      nextKey := 1;
      new;
      assert StartKeys(slots) == multiset{0} by {
        assert slots[1..][1..] == [];
      }
      assert groups.Keys == {0};
      ForestGroup([]);
      assert [Open(2)] + [] + [Close] == Shapes(slots);
    }

    /** Every group start in the table names a group of the map. */
    lemma {:induction false} StartKeyLive(i: nat)
      requires Consistent() && i < |slots| && slots[i].StartGroup?
      ensures slots[i].groupKey in groups
    {
      StartKeyIn(slots, i);
    }

    /** `CacheInner::invalidate`. */
    method Invalidate(token: GroupKey)
      requires Consistent()
      modifies this
      ensures Consistent()
      ensures groups == MarkDirty(old(groups), token)
      ensures slots == old(slots) && nextKey == old(nextKey)
    {
      InvalidateGroup(token);
    }

    /** `CacheInner::invalidate_group`: marks the group and, recursively, its
        parent dirty; a group no longer in the map is a logged no-op. */
    method InvalidateGroup(g: GroupKey)
      requires Consistent()
      modifies this
      ensures Consistent()
      ensures groups == MarkDirty(old(groups), g)
      ensures slots == old(slots) && nextKey == old(nextKey)
      decreases g
    {
      if g !in groups {
        // tracing::warn!("invalidate_group: no such group")
        return;
      }
      var group := groups[g];
      groups := groups[g := group.(dirty := true)];
      assert groups.Keys == old(groups).Keys;
      if group.parent.Some? {
        InvalidateGroup(group.parent.value);
      }
    }
  }
}
