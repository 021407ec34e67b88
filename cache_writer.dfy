/** `CacheWriter` (kyute/src/cache.rs): a cursor that walks the slot table
    during a run, reusing, inserting and deleting slots in place. */
module CacheWriting {
  import opened Wrappers
  import opened CallKeys
  import opened SlotTable

  // ---------------------------------------------------------------------------
  // Edits of the slot vector
  // ---------------------------------------------------------------------------

  /** `Vec::insert` of the slots `x` at index `i`. */
  function Insert(s: seq<Slot>, i: nat, x: seq<Slot>): (r: seq<Slot>)
    requires i <= |s|
    ensures |r| == |s| + |x|
  {
    s[..i] + x + s[i..]
  }

  /** An insertion keeps the slots before it and puts `x` at `i`. */
  lemma {:induction false} InsertPrefix(s: seq<Slot>, i: nat, x: seq<Slot>)
    requires i <= |s|
    ensures Insert(s, i, x)[..i] == s[..i] && Insert(s, i, x)[i..i + |x|] == x
  {
  }

  /** `s[lo..hi].rotate_left(m)`. */
  function RotateRange(s: seq<Slot>, lo: nat, m: nat, hi: nat): (r: seq<Slot>)
    requires lo + m <= hi <= |s|
    ensures |r| == |s|
  {
    s[..lo] + s[lo + m..hi] + s[lo..lo + m] + s[hi..]
  }

  /** What `rotate_left` promises: every index of the range takes the slot `m`
      places further on, cyclically, the rest of the vector is untouched, and
      the range holds the same slots as before. */
  lemma {:induction false} RotateRangeSpec(s: seq<Slot>, lo: nat, m: nat, hi: nat)
    requires lo + m <= hi <= |s|
    ensures RotateRange(s, lo, m, hi)[..lo] == s[..lo] && RotateRange(s, lo, m, hi)[hi..] == s[hi..]
    ensures multiset(RotateRange(s, lo, m, hi)[lo..hi]) == multiset(s[lo..hi])
    ensures forall i :: lo <= i < hi ==> RotateRange(s, lo, m, hi)[i] == s[lo + (i - lo + m) % (hi - lo)]
  {
    var r := RotateRange(s, lo, m, hi);
    assert r[lo..hi] == s[lo + m..hi] + s[lo..lo + m];
    assert s[lo..hi] == s[lo..lo + m] + s[lo + m..hi];
    forall i | lo <= i < hi
      ensures r[i] == s[lo + (i - lo + m) % (hi - lo)]
    {
      RotateIndex(i - lo, m, hi - lo);
    }
  }

  /** After the rotation the cursor holds the slot that was `m` places on,
      and nothing before the range moved. */
  lemma {:induction false} RotateHead(s: seq<Slot>, lo: nat, m: nat, hi: nat)
    requires lo + m < hi <= |s|
    ensures RotateRange(s, lo, m, hi)[lo] == s[lo + m]
    ensures RotateRange(s, lo, m, hi)[..lo] == s[..lo]
  {
  }

  lemma {:induction false} RotateIndex(k: nat, m: nat, n: nat)
    requires k < n && m <= n
    ensures k < n - m ==> (k + m) % n == k + m
    ensures n - m <= k ==> (k + m) % n == k + m - n
  {
  }

  /** `Vec::drain(lo..hi)`: the slots outside the range, in order. */
  function Drain(s: seq<Slot>, lo: nat, hi: nat): (r: seq<Slot>)
    requires lo <= hi <= |s|
    ensures |r| == |s| - (hi - lo)
  {
    s[..lo] + s[hi..]
  }

  /** Writing `len` into a group start, as `end_group` does. The length count
      fits in a `u32`, which `try_into().unwrap()` checks. */
  function SetLen(s: Slot, len: nat): (r: Slot)
    requires s.StartGroup? && len < U32_LIMIT
    ensures r.StartGroup? && r.key == s.key && r.groupKey == s.groupKey && r.len as nat == len
  {
    s.(len := len as u32)
  }

  /** `Slot::update_group_len`: sets the length of a group start; panics on
      any other slot or when the length does not fit in a `u32`. */
  function UpdateGroupLen(s: Slot, newLen: nat): (r: Result<Slot>)
    ensures r.Ok? <==> s.StartGroup? && newLen < U32_LIMIT
    ensures r.Ok? ==>
              r.value.StartGroup? && r.value.key == s.key
              && r.value.groupKey == s.groupKey && r.value.len as nat == newLen
  {
    if newLen >= U32_LIMIT then Panic("called `Result::unwrap()` on an `Err` value")
    else match s
      case StartGroup(_, _, _) => Ok(SetLen(s, newLen))
      case _ => Panic("expected group start")
  }

  /** The slots after `end_group` closes the group that starts at `start`:
      the dead slots `[pos, end)` are gone and the group's length is its span. */
  function CloseSlots(s: seq<Slot>, start: nat, pos: nat, end: nat): seq<Slot>
    requires start < pos <= end <= |s| && s[start].StartGroup? && pos + 1 - start < U32_LIMIT
  {
    var kept := Drain(s, pos, end);
    kept[start := SetLen(kept[start], pos + 1 - start)]
  }

  /** Closing a group whose slots were all visited keeps every slot and only
      records the group's length. */
  lemma {:induction false} CloseInPlace(s: seq<Slot>, start: nat, pos: nat)
    requires start < pos <= |s| && s[start].StartGroup? && pos + 1 - start < U32_LIMIT
    ensures CloseSlots(s, start, pos, pos) == s[start := SetLen(s[start], pos + 1 - start)]
  {
    assert Drain(s, pos, pos) == s;
  }

  /** The group map after `end_group`: the groups of the dead slots are gone
      and the closed group `gk` is clean. */
  ghost function CloseGroups(groups: map<GroupKey, Group>, dead: seq<Slot>, gk: GroupKey): map<GroupKey, Group>
    requires gk in groups - KeySet(dead)
  {
    var live := groups - KeySet(dead);
    live[gk := live[gk].(dirty := false)]
  }

  /** A value slot carrying `key`: what `expect_value` reuses. */
  predicate IsValueFor(s: Slot, key: CallKey) {
    s.Value? && s.key == key
  }

  // ---------------------------------------------------------------------------
  // The writer's view of the table: a zipper over shapes
  // ---------------------------------------------------------------------------

  /** One enclosing open group: the complete items written before its start,
      its start (whose `len` is stale until the group closes), and the items
      left after its end. */
  datatype Frame = Frame(left: seq<Shape>, start: Shape, right: seq<Shape>)

  ghost predicate FrameOk(f: Frame) {
    f.start.Open? && Forest(f.left) && Forest(f.right)
  }

  /** Shapes before the cursor's current group, outermost frame first. */
  function Before(fs: seq<Frame>): seq<Shape>
    decreases |fs|
  {
    if fs == [] then []
    else Before(fs[..|fs| - 1]) + fs[|fs| - 1].left + [fs[|fs| - 1].start]
  }

  /** Shapes after the current group, from its `EndGroup` outwards. */
  function After(fs: seq<Frame>): seq<Shape>
    decreases |fs|
  {
    if fs == [] then []
    else [Close] + fs[|fs| - 1].right + After(fs[..|fs| - 1])
  }

  /** The index of each frame's group start: the writer's `group_stack`. */
  function Starts(fs: seq<Frame>): (r: seq<nat>)
    ensures |r| == |fs|
    decreases |fs|
  {
    if fs == [] then []
    else Starts(fs[..|fs| - 1]) + [|Before(fs[..|fs| - 1])| + |fs[|fs| - 1].left|]
  }

  lemma {:induction false} PushFrame(fs: seq<Frame>, f: Frame)
    ensures Before(fs + [f]) == Before(fs) + f.left + [f.start]
    ensures After(fs + [f]) == [Close] + f.right + After(fs)
    ensures Starts(fs + [f]) == Starts(fs) + [|Before(fs)| + |f.left|]
  {
    assert (fs + [f])[..|fs|] == fs;
  }

  /** Entering the group at the head of `right`: the group's body becomes the
      current sequence, and the items around it move into a new frame. */
  lemma {:induction false} EnterGroup(fs: seq<Frame>, left: seq<Shape>, right: seq<Shape>, n: nat)
    requires Forest(right) && right != [] && right[0] == Open(n)
    ensures 2 <= n <= |right| && Forest(right[1..n - 1]) && Forest(right[n..])
    ensures Before(fs + [Frame(left, right[0], right[n..])]) + right[1..n - 1] + After(fs + [Frame(left, right[0], right[n..])])
         == Before(fs) + left + right + After(fs)
  {
    OpenHead(right, n);
    var f := Frame(left, right[0], right[n..]);
    PushFrame(fs, f);
    var body, rest := right[1..n - 1], right[n..];
    SplitItem(right, n);
    var b, a := Before(fs), After(fs);
    assert Before(fs + [f]) == b + left + [right[0]];
    assert After(fs + [f]) == [Close] + rest + a;
    Regroup(b, left, [right[0]], body, [Close], rest, a);
  }

  lemma {:induction false} SplitItem<T>(s: seq<T>, n: nat)
    requires 2 <= n <= |s|
    ensures s == [s[0]] + s[1..n - 1] + [s[n - 1]] + s[n..]
  {
  }

  lemma {:induction false} OpenHead(sh: seq<Shape>, n: nat)
    requires Forest(sh) && sh != [] && sh[0] == Open(n)
    ensures 2 <= n <= |sh| && sh[n - 1] == Close && Forest(sh[1..n - 1]) && Forest(sh[n..])
  {
  }

  lemma {:induction false} Regroup<T>(b: seq<T>, l: seq<T>, h: seq<T>, body: seq<T>, c: seq<T>, t: seq<T>, a: seq<T>)
    ensures (b + l + h) + body + (c + t + a) == b + l + (h + body + c + t) + a
  {
  }

  lemma {:induction false} UpdateMiddle<T>(a: seq<T>, y: T, b: seq<T>, x: T)
    ensures (a + [y] + b)[|a| := x] == a + [x] + b
  {
  }

  /** Closing the current group: with the dead items removed and the start's
      length set to `|left| + 2`, the group becomes one complete item after
      the enclosing frame's left items. */
  lemma {:induction false} CloseFrame(fs: seq<Frame>, left: seq<Shape>)
    requires fs != []
    ensures |Before(fs)| == |Before(fs[..|fs| - 1])| + |fs[|fs| - 1].left| + 1
    ensures (Before(fs) + left + After(fs))[|Before(fs[..|fs| - 1])| + |fs[|fs| - 1].left| := Open(|left| + 2)]
         == Before(fs[..|fs| - 1]) + (fs[|fs| - 1].left + ([Open(|left| + 2)] + left + [Close]))
            + fs[|fs| - 1].right + After(fs[..|fs| - 1])
  {
    var init := fs[..|fs| - 1];
    var f := fs[|fs| - 1];
    var bi, ai := Before(init), After(init);
    assert Before(fs) == bi + f.left + [f.start];
    assert After(fs) == [Close] + f.right + ai;
    var a := bi + f.left;
    var b := left + [Close] + f.right + ai;
    Regroup2(bi, f.left, [f.start], left, [Close], f.right, ai);
    UpdateMiddle(a, f.start, b, Open(|left| + 2));
    Regroup3(bi, f.left, [Open(|left| + 2)], left, [Close], f.right, ai);
  }

  lemma {:induction false} Regroup2<T>(b: seq<T>, l: seq<T>, h: seq<T>, body: seq<T>, c: seq<T>, t: seq<T>, a: seq<T>)
    ensures (b + l + h) + body + (c + t + a) == (b + l) + h + (body + c + t + a)
  {
  }

  lemma {:induction false} Regroup3<T>(b: seq<T>, l: seq<T>, h: seq<T>, body: seq<T>, c: seq<T>, t: seq<T>, a: seq<T>)
    ensures (b + l) + h + (body + c + t + a) == b + (l + (h + body + c)) + t + a
  {
  }

  /** The shapes of an edited vector, in the zipper's terms. */
  lemma {:induction false} ShapesInsert(s: seq<Slot>, p: seq<Shape>, q: seq<Shape>, x: seq<Slot>)
    requires |p| <= |s| && Shapes(s)[..|p|] == p && Shapes(s)[|p|..] == q
    ensures Shapes(Insert(s, |p|, x)) == p + Shapes(x) + q
  {
    ShapesConcat(s[..|p|] + x, s[|p|..]);
    ShapesConcat(s[..|p|], x);
    ShapesSlice(s, |p|, |s|);
  }

  lemma {:induction false} ShapesRotate(s: seq<Slot>, lo: nat, m: nat, hi: nat)
    requires lo + m <= hi <= |s|
    ensures Shapes(RotateRange(s, lo, m, hi))
         == Shapes(s)[..lo] + Shapes(s)[lo + m..hi] + Shapes(s)[lo..lo + m] + Shapes(s)[hi..]
  {
    var a, x, y, b := s[..lo], s[lo..lo + m], s[lo + m..hi], s[hi..];
    ShapesConcat(a + y + x, b);
    ShapesConcat(a + y, x);
    ShapesConcat(a, y);
    ShapesSlice(s, lo, lo + m);
    ShapesSlice(s, lo + m, hi);
    ShapesSlice(s, hi, hi);
  }

  lemma {:induction false} ShapesDrain(s: seq<Slot>, lo: nat, hi: nat)
    requires lo <= hi <= |s|
    ensures Shapes(Drain(s, lo, hi)) == Shapes(s)[..lo] + Shapes(s)[hi..]
  {
  }

  /** Rotating a range keeps the group keys held by the table. */
  lemma {:induction false} StartKeysRotate(s: seq<Slot>, lo: nat, m: nat, hi: nat)
    requires lo + m <= hi <= |s|
    ensures StartKeys(RotateRange(s, lo, m, hi)) == StartKeys(s)
  {
    SplitFour(s, lo, lo + m, hi);
    StartKeysSwap(s[..lo], s[lo..lo + m], s[lo + m..hi], s[hi..]);
  }

  lemma {:induction false} SplitFour<T>(s: seq<T>, i: nat, j: nat, k: nat)
    requires i <= j <= k <= |s|
    ensures s == s[..i] + s[i..j] + s[j..k] + s[k..]
  {
    assert s[..j] == s[..i] + s[i..j];
    assert s[..k] == s[..j] + s[j..k];
    assert s == s[..k] + s[k..];
  }

  lemma {:induction false} StartKeysSwap(a: seq<Slot>, x: seq<Slot>, y: seq<Slot>, b: seq<Slot>)
    ensures StartKeys(a + y + x + b) == StartKeys(a + x + y + b)
  {
    StartKeysConcat(a + x + y, b);
    StartKeysConcat(a + x, y);
    StartKeysConcat(a, x);
    StartKeysConcat(a + y + x, b);
    StartKeysConcat(a + y, x);
    StartKeysConcat(a, y);
    var ka, kx, ky, kb := StartKeys(a), StartKeys(x), StartKeys(y), StartKeys(b);
    assert ka + kx + ky + kb == ka + ky + kx + kb;
  }

  /** The search moves past an item of a forest that does not match. */
  lemma {:induction false} SearchStep(s: seq<Slot>, i: nat, e: nat, key: CallKey)
    requires i < e <= |s| && Items(s, i, e) && !Matches(s[i], key)
    ensures !s[i].EndGroup? && 1 <= ItemLen(ShapeOf(s[i])) && i + ItemLen(ShapeOf(s[i])) <= e
    ensures Items(s, i + ItemLen(ShapeOf(s[i])), e)
    ensures FindFrom(s, i, e, key) == FindFrom(s, i + ItemLen(ShapeOf(s[i])), e, key)
  {
    ItemStep(s, i, e);
  }

  /** The zipper read left to right gives the shapes of the table, the cursor
      sits between `left` and `right`, `group_stack` holds the index of every
      open group's start, and every complete part is a forest. */
  ghost predicate Layout(s: seq<Slot>, pos: nat, gs: seq<nat>, fs: seq<Frame>, left: seq<Shape>, right: seq<Shape>) {
    Shapes(s) == Before(fs) + left + right + After(fs)
    && pos == |Before(fs)| + |left|
    && gs == Starts(fs)
    && (forall d :: 0 <= d < |fs| ==> FrameOk(fs[d]))
    && Forest(left) && Forest(right)
  }

  lemma {:induction false} LayoutFacts(s: seq<Slot>, pos: nat, gs: seq<nat>, fs: seq<Frame>, left: seq<Shape>, right: seq<Shape>)
    requires Layout(s, pos, gs, fs, left, right)
    ensures |gs| == |fs|
    ensures pos + |right| <= |s|
    ensures Shapes(s[..pos]) == Before(fs) + left
    ensures Shapes(s[pos..pos + |right|]) == right
    ensures Shapes(s[pos + |right|..]) == After(fs)
    ensures fs == [] ==> pos + |right| == |s|
    ensures fs != [] ==> pos + |right| < |s| && s[pos + |right|].EndGroup?
    ensures fs != [] ==>
              gs[|gs| - 1] < pos && s[gs[|gs| - 1]].StartGroup?
    ensures fs != [] ==>
              gs[|gs| - 1] == |Before(fs[..|fs| - 1])| + |fs[|fs| - 1].left|
  {
    var sh := Shapes(s);
    var b, a := Before(fs), After(fs);
    var e := pos + |right|;
    ShapesSlice(s, pos, e);
    assert sh[..pos] == b + left;
    assert sh[pos..e] == right;
    assert sh[e..] == a;
    if fs != [] {
      var init := fs[..|fs| - 1];
      var f := fs[|fs| - 1];
      assert a == [Close] + f.right + After(init);
      assert sh[e] == Close;
      assert b == Before(init) + f.left + [f.start];
      var g := |Before(init)| + |f.left|;
      assert gs[|gs| - 1] == g;
      assert sh[g] == f.start;
      assert FrameOk(fs[|fs| - 1]);
    }
  }

  /** Rotating the range `[lo, hi)` at `p` swaps the shapes of its two parts
      and keeps the shapes around the range. */
  lemma {:induction false} RotateShapes(s: seq<Slot>, lo: nat, p: nat, hi: nat, before: seq<Shape>, after: seq<Shape>)
    requires lo <= p <= hi <= |s|
    requires Shapes(s[..lo]) == before && Shapes(s[hi..]) == after
    ensures Shapes(RotateRange(s, lo, p - lo, hi)) == before + (Shapes(s[p..hi]) + Shapes(s[lo..p])) + after
  {
    var sh := Shapes(s);
    var x, y := Shapes(s[p..hi]), Shapes(s[lo..p]);
    assert sh[..lo] == before && sh[hi..] == after by {
      ShapesSlice(s, lo, hi);
    }
    assert sh[p..hi] == x by {
      ShapesSlice(s, p, hi);
    }
    assert sh[lo..p] == y by {
      ShapesSlice(s, lo, p);
    }
    assert Shapes(RotateRange(s, lo, p - lo, hi)) == sh[..lo] + sh[p..hi] + sh[lo..p] + sh[hi..] by {
      ShapesRotate(s, lo, p - lo, hi);
    }
  }

  /** Rotating the items ahead of the cursor at a split point keeps the
      layout, with the two runs of items swapped. */
  lemma {:induction false} LayoutRotate(s: seq<Slot>, pos: nat, gs: seq<nat>, fs: seq<Frame>, left: seq<Shape>, right: seq<Shape>, p: nat, e: nat)
    requires Layout(s, pos, gs, fs, left, right) && e == pos + |right|
    requires pos <= p <= e <= |s| && SplitsAt(s, pos, p, e)
    ensures Layout(RotateRange(s, pos, p - pos, e), pos, gs, fs, left, Shapes(s[p..e]) + Shapes(s[pos..p]))
  {
    var x, y := Shapes(s[p..e]), Shapes(s[pos..p]);
    assert Shapes(RotateRange(s, pos, p - pos, e)) == Before(fs) + left + (x + y) + After(fs) by {
      LayoutFacts(s, pos, gs, fs, left, right);
      RotateShapes(s, pos, p, e, Before(fs) + left, After(fs));
    }
    assert Forest(x + y) by {
      ForestConcat(x, y);
    }
  }

  /** The shape just ahead of the cursor is that of the slot at the cursor. */
  lemma {:induction false} LayoutHead(s: seq<Slot>, pos: nat, gs: seq<nat>, fs: seq<Frame>, left: seq<Shape>, right: seq<Shape>)
    requires Layout(s, pos, gs, fs, left, right) && right != []
    ensures pos < |s| && right[0] == ShapeOf(s[pos])
  {
    LayoutFacts(s, pos, gs, fs, left, right);
    var ahead := s[pos..pos + |right|];
    assert ahead[0] == s[pos];
    assert Shapes(ahead)[0] == ShapeOf(ahead[0]);
  }

  /** Entering the group just ahead of the cursor: `group_stack` gains the
      cursor's index, the cursor moves past the group start, and the group's
      body becomes the current sequence of items. */
  lemma {:induction false} LayoutEnter(s: seq<Slot>, pos: nat, gs: seq<nat>, fs: seq<Frame>, left: seq<Shape>, right: seq<Shape>, n: nat)
    requires Layout(s, pos, gs, fs, left, right) && right != [] && right[0] == Open(n)
    ensures 2 <= n <= |right|
    ensures Layout(s, pos + 1, gs + [pos], fs + [Frame(left, right[0], right[n..])], [], right[1..n - 1])
  {
    var f := Frame(left, right[0], right[n..]);
    EnterGroup(fs, left, right, n);
    PushFrame(fs, f);
    assert Before(fs + [f]) + [] == Before(fs + [f]);
    forall d | 0 <= d < |fs + [f]|
      ensures FrameOk((fs + [f])[d])
    {
      if d < |fs| {
        assert (fs + [f])[d] == fs[d];
      }
    }
  }

  /** Inserting an empty group at the cursor puts it at the head of the items
      ahead of the cursor. */
  lemma {:induction false} LayoutInsertGroup(s: seq<Slot>, pos: nat, gs: seq<nat>, fs: seq<Frame>, left: seq<Shape>, right: seq<Shape>, x: seq<Slot>)
    requires Layout(s, pos, gs, fs, left, right) && Shapes(x) == [Open(2), Close]
    ensures pos <= |s|
    ensures Layout(Insert(s, pos, x), pos, gs, fs, left, [Open(2), Close] + right)
  {
    var b, a := Before(fs), After(fs);
    var sh := Shapes(s);
    assert sh[..pos] == b + left;
    assert sh[pos..] == right + a;
    ShapesInsert(s, b + left, right + a, x);
    Regroup4(b + left, [Open(2), Close], right, a);
    ForestGroup([]);
    assert [Open(2)] + [] + [Close] == [Open(2), Close];
    ForestConcat([Open(2), Close], right);
  }

  lemma {:induction false} Regroup4<T>(l: seq<T>, x: seq<T>, r: seq<T>, a: seq<T>)
    ensures l + x + (r + a) == l + (x + r) + a
  {
  }

  /** `start_group` inserts its two slots one after the other. */
  lemma {:induction false} InsertTwice(s: seq<Slot>, pos: nat, a: Slot, b: Slot)
    requires pos <= |s|
    ensures Insert(Insert(s, pos, [a]), pos + 1, [b]) == Insert(s, pos, [a, b])
  {
    var t := Insert(s, pos, [a]);
    assert t[..pos + 1] == s[..pos] + [a];
    assert t[pos + 1..] == s[pos..];
  }

  /** Registering a fresh group whose start and end have been inserted keeps
      the table and the group map consistent. */
  lemma {:induction false} AddGroup(s: seq<Slot>, groups: map<GroupKey, Group>, next: nat, pos: nat, key: CallKey, parent: Option<GroupKey>)
    requires KeysMatch(s, groups) && ParentsBelow(groups) && KeysBelow(groups, next)
    requires pos <= |s| && (parent.Some? ==> parent.value in groups)
    ensures KeysMatch(Insert(s, pos, [StartGroup(key, next, 2), EndGroup]), groups[next := Group(parent, false)])
    ensures ParentsBelow(groups[next := Group(parent, false)])
    ensures KeysBelow(groups[next := Group(parent, false)], next + 1)
  {
    var x := [StartGroup(key, next, 2), EndGroup];
    StartKeysInsert(s, pos, x);
    assert StartKeys(x) == multiset{next} by {
      assert x[1..] == [EndGroup];
      assert x[1..][1..] == [];
      assert StartKeys(x[1..]) == multiset{};
    }
    assert next !in groups;
    var g := groups[next := Group(parent, false)];
    assert g.Keys == groups.Keys + {next};
    assert multiset(g.Keys) == multiset(groups.Keys) + multiset{next};
  }

  /** Closing the current group: with the items ahead of the cursor dropped
      and the start's length set to its span, the group becomes one complete
      item after the enclosing frame's left items, and the cursor moves past
      its end. */
  lemma {:induction false} LayoutClose(s: seq<Slot>, pos: nat, gs: seq<nat>, fs: seq<Frame>, left: seq<Shape>, right: seq<Shape>,
                                       start: nat, e: nat, fs1: seq<Frame>, left1: seq<Shape>, right1: seq<Shape>)
    requires Layout(s, pos, gs, fs, left, right) && gs != [] && start == gs[|gs| - 1] && e == pos + |right|
    requires pos + 1 - start < U32_LIMIT
    requires fs1 == fs[..|fs| - 1] && left1 == fs[|fs| - 1].left + ([Open(|left| + 2)] + left + [Close]) && right1 == fs[|fs| - 1].right
    ensures |gs| == |fs| && start < pos && e <= |s| && s[start].StartGroup?
    ensures pos + 1 - start == |left| + 2
    ensures Layout(CloseSlots(s, start, pos, e), pos + 1, gs[..|gs| - 1], fs1, left1, right1)
  {
    assert |gs| == |fs| && pos + |right| <= |s| by {
      LayoutFacts(s, pos, gs, fs, left, right);
    }
    var init, f := fs[..|fs| - 1], fs[|fs| - 1];
    assert start < pos && s[start].StartGroup? && start == |Before(init)| + |f.left| by {
      LayoutFacts(s, pos, gs, fs, left, right);
    }
    assert Before(fs) == Before(init) + f.left + [f.start];
    var kept := Drain(s, pos, e);
    var group := [Open(|left| + 2)] + left + [Close];
    assert Shapes(CloseSlots(s, start, pos, e)) == Before(init) + (f.left + group) + f.right + After(init) by {
      LayoutFacts(s, pos, gs, fs, left, right);
      var sh := Shapes(s);
      assert sh[..pos] == Before(fs) + left;
      assert sh[e..] == After(fs);
      ShapesDrain(s, pos, e);
      ShapesUpdate(kept, start, SetLen(kept[start], pos + 1 - start));
      CloseFrame(fs, left);
    }
    assert FrameOk(f);
    assert Forest(f.left + group) by {
      ForestGroup(left);
      ForestConcat(f.left, group);
    }
    assert gs[..|gs| - 1] == Starts(init) by {
      assert Starts(fs) == Starts(init) + [|Before(init)| + |f.left|];
    }
    forall d | 0 <= d < |init|
      ensures FrameOk(init[d])
    {
      assert init[d] == fs[d];
    }
  }

  /** `end_group` keeps the table and the group map consistent: the keys of
      the dropped group starts leave the map, and the closed group itself is
      still in it. */
  lemma {:induction false} CloseConsistent(s: seq<Slot>, groups: map<GroupKey, Group>, next: nat, start: nat, pos: nat, e: nat)
    requires KeysMatch(s, groups) && ParentsBelow(groups) && KeysBelow(groups, next)
    requires start < pos <= e <= |s| && s[start].StartGroup? && pos + 1 - start < U32_LIMIT
    ensures s[start].groupKey in groups - KeySet(s[pos..e])
    ensures KeysMatch(CloseSlots(s, start, pos, e), CloseGroups(groups, s[pos..e], s[start].groupKey))
    ensures ParentsBelow(CloseGroups(groups, s[pos..e], s[start].groupKey))
    ensures KeysBelow(CloseGroups(groups, s[pos..e], s[start].groupKey), next)
  {
    var a, d, b := s[..pos], s[pos..e], s[e..];
    SplitFour(s, pos, pos, e);
    assert s[pos..pos] == [];
    assert a + d + b == s;
    RemoveDeadKeys(groups, a, d, b);
    assert a[start] == s[start];
    var kept := Drain(s, pos, e);
    StartKeysUpdate(kept, start, SetLen(kept[start], pos + 1 - start));
  }

  /** With no group open the table is a forest. */
  lemma {:induction false} LayoutRoot(s: seq<Slot>, pos: nat, gs: seq<nat>, fs: seq<Frame>, left: seq<Shape>, right: seq<Shape>)
    requires Layout(s, pos, gs, fs, left, right) && gs == []
    ensures Forest(Shapes(s))
  {
    assert fs == [];
    assert Shapes(s) == left + right;
    ForestConcat(left, right);
  }

  /** `slots[lo..hi].rotate_left(m)` on the table: the same group starts
      stay in the table, so it stays consistent. */
  method RotateSlots(cache: CacheInner, lo: nat, m: nat, hi: nat)
    requires cache.Consistent() && lo + m <= hi <= |cache.slots|
    modifies cache
    ensures cache.slots == RotateRange(old(cache.slots), lo, m, hi) && cache.Consistent()
    ensures cache.groups == old(cache.groups) && cache.nextKey == old(cache.nextKey)
  {
    var rotated := RotateRange(cache.slots, lo, m, hi);
    StartKeysRotate(cache.slots, lo, m, hi);
    cache.slots := rotated;
  }

  /** Removes from the group map the group of every group start in `dead`,
      one slot at a time, as `end_group`'s drain loop does. */
  method RemoveGroupsOf(groups0: map<GroupKey, Group>, dead: seq<Slot>) returns (groups: map<GroupKey, Group>)
    ensures groups == groups0 - KeySet(dead)
  {
    groups := groups0;
    var j := 0;
    assert dead[..0] == [];
    while j < |dead|
      invariant 0 <= j <= |dead|
      invariant groups == groups0 - KeySet(dead[..j])
    {
      KeySetSnoc(dead, j);
      if dead[j].StartGroup? {
        groups := groups - {dead[j].groupKey};
      }
      j := j + 1;
    }
    assert dead[..j] == dead;
  }

  /** The keys of a prefix grow by the key of the next slot if it starts a group. */
  lemma {:induction false} KeySetSnoc(d: seq<Slot>, j: nat)
    requires j < |d|
    ensures KeySet(d[..j + 1]) == KeySet(d[..j]) + (if d[j].StartGroup? then {d[j].groupKey} else {})
  {
    assert d[..j + 1] == d[..j] + [d[j]];
    StartKeysConcat(d[..j], [d[j]]);
    assert [d[j]][1..] == [];
  }

  /** Stepping over the item just ahead of the cursor moves it from the items
      ahead to the items behind. */
  lemma {:induction false} LayoutStep(s: seq<Slot>, pos: nat, gs: seq<nat>, fs: seq<Frame>, left: seq<Shape>, right: seq<Shape>)
    requires Layout(s, pos, gs, fs, left, right) && right != []
    ensures pos < |s| && right[0] == ShapeOf(s[pos]) && 1 <= ItemLen(right[0]) <= |right|
    ensures Layout(s, pos + ItemLen(right[0]), gs, fs, left + right[..ItemLen(right[0])], right[ItemLen(right[0])..])
  {
    LayoutHead(s, pos, gs, fs, left, right);
    var n := ItemLen(right[0]);
    assert Forest(right[..n]) && Forest(right[n..]) by {
      ForestHead(right);
    }
    assert Forest(left + right[..n]) by {
      ForestConcat(left, right[..n]);
    }
    assert Before(fs) + (left + right[..n]) + right[n..] + After(fs) == Before(fs) + left + right + After(fs) by {
      assert right[..n] + right[n..] == right;
    }
  }

  /** Items of the current group remain ahead of the cursor exactly when the
      slot at the cursor is not an `EndGroup`. */
  lemma {:induction false} LayoutAhead(s: seq<Slot>, pos: nat, gs: seq<nat>, fs: seq<Frame>, left: seq<Shape>, right: seq<Shape>)
    requires Layout(s, pos, gs, fs, left, right) && pos < |s|
    ensures right != [] <==> !s[pos].EndGroup?
  {
    LayoutFacts(s, pos, gs, fs, left, right);
    if right != [] {
      LayoutHead(s, pos, gs, fs, left, right);
      ForestHead(right);
    }
  }

  /** Inserting a leaf slot between two runs of shapes puts a leaf there. */
  lemma {:induction false} ShapesInsertLeaf(s: seq<Slot>, pre: seq<Shape>, post: seq<Shape>, x: Slot)
    requires Shapes(s) == pre + post && ShapeOf(x) == Leaf
    ensures Shapes(Insert(s, |pre|, [x])) == pre + [Leaf] + post
  {
    var sh := Shapes(s);
    assert sh[..|pre|] == pre;
    assert sh[|pre|..] == post;
    ShapesInsert(s, pre, post, [x]);
    assert Shapes([x]) == [Leaf];
  }

  /** A forest followed by a leaf is a forest. */
  lemma {:induction false} ForestAppendLeaf(left: seq<Shape>)
    requires Forest(left)
    ensures Forest(left + [Leaf])
  {
    assert Forest([Leaf]) by {
      assert [Leaf][1..] == [];
    }
    ForestConcat(left, [Leaf]);
  }

  lemma {:induction false} LayoutInsertLeaf(s: seq<Slot>, pos: nat, gs: seq<nat>, fs: seq<Frame>, left: seq<Shape>, right: seq<Shape>, x: Slot)
    requires Layout(s, pos, gs, fs, left, right) && ShapeOf(x) == Leaf
    ensures pos <= |s|
    ensures Layout(Insert(s, pos, [x]), pos + 1, gs, fs, left + [Leaf], right)
  {
    var b, a := Before(fs), After(fs);
    var pre, post := b + left, right + a;
    assert Shapes(s) == pre + post;
    ShapesInsertLeaf(s, pre, post, x);
    assert pre + [Leaf] + post == b + (left + [Leaf]) + right + a;
    ForestAppendLeaf(left);
  }

  /** Replacing a slot by one of the same shape keeps the layout. */
  lemma {:induction false} LayoutReplace(s: seq<Slot>, pos: nat, gs: seq<nat>, fs: seq<Frame>, left: seq<Shape>, right: seq<Shape>, i: nat, x: Slot)
    requires Layout(s, pos, gs, fs, left, right) && i < |s| && ShapeOf(x) == ShapeOf(s[i])
    ensures Layout(s[i := x], pos, gs, fs, left, right)
  {
    ShapesUpdate(s, i, x);
    assert Shapes(s)[i := ShapeOf(x)] == Shapes(s);
  }

  /** Inserting a value or placeholder keeps the table and the map consistent. */
  lemma {:induction false} InsertLeafKeys(s: seq<Slot>, groups: map<GroupKey, Group>, pos: nat, x: Slot)
    requires KeysMatch(s, groups) && pos <= |s| && !x.StartGroup?
    ensures KeysMatch(Insert(s, pos, [x]), groups)
  {
    StartKeysInsert(s, pos, [x]);
    assert StartKeys([x]) == multiset{} by {
      assert [x][1..] == [];
    }
  }

  /** Overwriting a value or placeholder by another keeps the table and the
      map consistent. */
  lemma {:induction false} ReplaceLeafKeys(s: seq<Slot>, groups: map<GroupKey, Group>, i: nat, x: Slot)
    requires KeysMatch(s, groups) && i < |s| && !s[i].StartGroup? && !x.StartGroup?
    ensures KeysMatch(s[i := x], groups)
  {
    StartKeysUpdate(s, i, x);
  }

  // ---------------------------------------------------------------------------
  // The writer
  // ---------------------------------------------------------------------------

  /** `CacheWriter`. The ghost zipper records the group structure around the
      cursor: the enclosing open groups (`frames`), the complete items already
      written in the current group (`curLeft`) and the items of the current
      group that are still ahead of the cursor (`curRight`). */
  class CacheWriter {
    const cache: CacheInner
    var pos: nat
    var groupStack: seq<nat>
    ghost var frames: seq<Frame>
    ghost var curLeft: seq<Shape>
    ghost var curRight: seq<Shape>

    /** The writer's invariant: the table is consistent with the group map
        and its shapes are laid out as the zipper says. */
    ghost predicate Valid()
      reads this, cache
    {
      cache.Consistent() && Layout(cache.slots, pos, groupStack, frames, curLeft, curRight)
    }

    lemma {:induction false} ValidFacts()
      requires Valid()
      ensures |groupStack| == |frames|
      ensures pos + |curRight| <= |cache.slots|
      ensures Shapes(cache.slots[..pos]) == Before(frames) + curLeft
      ensures Shapes(cache.slots[pos..pos + |curRight|]) == curRight
      ensures Shapes(cache.slots[pos + |curRight|..]) == After(frames)
      ensures frames == [] ==> pos + |curRight| == |cache.slots|
      ensures frames != [] ==> pos + |curRight| < |cache.slots| && cache.slots[pos + |curRight|].EndGroup?
      ensures frames != [] ==>
                groupStack[|groupStack| - 1] < pos && cache.slots[groupStack[|groupStack| - 1]].StartGroup?
      ensures frames != [] ==>
                groupStack[|groupStack| - 1] == |Before(frames[..|frames| - 1])| + |frames[|frames| - 1].left|
    {
      LayoutFacts(cache.slots, pos, groupStack, frames, curLeft, curRight);
    }

    /** Index of the `EndGroup` that closes the current group, or the table's
        length at the top level; the slots in between are whole items. */
    ghost function GroupEnd(): (e: nat)
      requires Valid()
      reads this, cache
      ensures e == pos + |curRight| && e <= |cache.slots|
      ensures groupStack == [] ==> e == |cache.slots|
      ensures groupStack != [] ==> e < |cache.slots| && cache.slots[e].EndGroup?
    {
      ValidFacts();
      pos + |curRight|
    }

    /** The slots of the current group ahead of the cursor are whole items,
        with the shapes the zipper records. */
    lemma {:induction false} GroupEndItems()
      requires Valid()
      ensures Shapes(cache.slots[pos..GroupEnd()]) == curRight && Items(cache.slots, pos, GroupEnd())
    {
      ValidFacts();
    }

    /** Index of the start of the innermost open group. */
    ghost function OpenStart(): (i: nat)
      requires Valid() && groupStack != []
      reads this, cache
      ensures i == groupStack[|groupStack| - 1] && i < pos && cache.slots[i].StartGroup?
    {
      ValidFacts();
      groupStack[|groupStack| - 1]
    }

    /** The index the key search of the current group must return. */
    ghost function Search(key: CallKey): (r: Option<nat>)
      requires Valid()
      reads this, cache
      ensures r.Some? ==> pos <= r.value < GroupEnd() && Matches(cache.slots[r.value], key)
    {
      FindFrom(cache.slots, pos, GroupEnd(), key)
    }

    /** The search finds the first sibling carrying the key among the items
        ahead of the cursor, and finds one whenever such a sibling exists. */
    lemma {:induction false} SearchFindsFirst(key: CallKey)
      requires Valid()
      ensures Search(key).Some? ==> SplitsAt(cache.slots, pos, Search(key).value, GroupEnd())
      ensures forall i :: pos <= i < GroupEnd() && SplitsAt(cache.slots, pos, i, GroupEnd()) && Matches(cache.slots[i], key) ==>
                Search(key).Some? && Search(key).value <= i
    {
      GroupEndItems();
      FindFromFirst(cache.slots, pos, GroupEnd(), key);
    }

    /** The table once `sync(key)` has brought the slot the key search finds
        to the cursor, or, when it finds none, once `miss` is inserted at the
        cursor in its place. */
    ghost function SyncedSlots(key: CallKey, miss: Slot): (r: seq<Slot>)
      requires Valid()
      reads this, cache
      ensures pos < |r| && r[..pos] == cache.slots[..pos]
      ensures Search(key).None? ==> r[pos] == miss
      ensures Search(key).Some? ==> r[pos] == cache.slots[Search(key).value] && |r| == |cache.slots|
    {
      match Search(key)
      case Some(i) =>
        RotateHead(cache.slots, pos, i - pos, GroupEnd());
        RotateRange(cache.slots, pos, i - pos, GroupEnd())
      case None =>
        InsertPrefix(cache.slots, pos, [miss]);
        Insert(cache.slots, pos, [miss])
    }

    /** `parent_group_key`: the group key of the innermost open group. The
        slot at that index is a group start by the invariant, so the source's
        "unexpected entry type" panic cannot occur. */
    function ParentGroupKey(): (r: Option<GroupKey>)
      requires Valid()
      reads this, cache
      ensures r.None? <==> groupStack == []
      ensures r.Some? ==> r.value in cache.groups
      ensures r.Some? ==> cache.slots[groupStack[|groupStack| - 1]].StartGroup?
                           && cache.slots[groupStack[|groupStack| - 1]].groupKey == r.value
    {
      if |groupStack| == 0 then None
      else
        var i := groupStack[|groupStack| - 1];
        assert i == OpenStart();
        cache.StartKeyLive(i);
        Some(cache.slots[i].groupKey)
    }

    /** `get_invalidation_token`: panics when no group is open. */
    function GetInvalidationToken(): (r: Result<GroupKey>)
      requires Valid()
      reads this, cache
      ensures r.Panic? <==> groupStack == []
      ensures r.Ok? ==> r.value in cache.groups && cache.slots[groupStack[|groupStack| - 1]].StartGroup?
                        && r.value == cache.slots[groupStack[|groupStack| - 1]].groupKey
    {
      match ParentGroupKey()
      case None => Panic("called `Option::unwrap()` on a `None` value")
      case Some(k) => Ok(k)
    }

    /** `parent_group_offset`: distance from the cursor back to the innermost
        open group's start, computed on `i32` with two's-complement wrapping. */
    function ParentGroupOffset(): (r: i32)
      requires Valid()
      reads this, cache
      ensures groupStack == [] ==> r == 0
      ensures groupStack != [] && pos < 0x8000_0000 ==>
                r as int == groupStack[|groupStack| - 1] - pos && r < 0
    {
      if |groupStack| == 0 then 0
      else
        var parent := groupStack[|groupStack| - 1];
        assert parent == OpenStart();
        WrappingSubI32(AsI32(parent), AsI32(pos))
    }

    /** The writer over `cache` before `new` opens the root group. */
    constructor Init(cache: CacheInner)
      requires cache.WellFormed()
      ensures this.cache == cache && pos == 0 && groupStack == [] && Valid()
      ensures curRight == Shapes(cache.slots)
    {
      this.cache := cache;
      pos := 0;
      groupStack := [];
      frames := [];
      curLeft := [];
      curRight := Shapes(cache.slots);
      new;
      assert Shapes(cache.slots) == Before([]) + [] + Shapes(cache.slots) + After([]);
    }

    /** `group_end_position`: walks the current group item by item, jumping
        over nested groups by their length, up to its `EndGroup`. */
    method GroupEndPosition() returns (r: nat)
      requires Valid()
      ensures r == GroupEnd()
      ensures pos <= r <= |cache.slots|
      ensures r == |cache.slots| || cache.slots[r].EndGroup?
    {
      ghost var e := GroupEnd();
      GroupEndItems();
      var i := pos;
      var slots := cache.slots;
      assert e == |slots| || slots[e].EndGroup?;
      while i < |slots|
        invariant pos <= i <= e
        invariant Items(slots, i, e)
        decreases |slots| - i
      {
        if slots[i].EndGroup? {
          if i < e {
            ItemStep(slots, i, e);
          }
          break;
        }
        ItemStep(slots, i, e);
        // a group start is skipped by its `len`, a value or placeholder by one
        i := i + ItemLen(ShapeOf(slots[i]));
      }
      r := i;
    }

    /** `find_tag_in_current_group`: the same walk, stopping at the first item
        that is a group start or a value with the key. */
    method FindTagInCurrentGroup(key: CallKey) returns (r: Option<nat>)
      requires Valid()
      ensures r == Search(key)
      ensures r.Some? ==> pos <= r.value < GroupEnd() && Matches(cache.slots[r.value], key)
    {
      ghost var e := GroupEnd();
      ghost var target := Search(key);
      GroupEndItems();
      var i := pos;
      var slots := cache.slots;
      assert e == |slots| || slots[e].EndGroup?;
      while i < |slots|
        invariant pos <= i <= e
        invariant Items(slots, i, e)
        invariant target == FindFrom(slots, i, e, key)
        decreases |slots| - i
      {
        // `EndGroup` ends the current group; a group start or a value with
        // the key is the answer; anything else is skipped whole (a group by
        // its `len`, a value or placeholder by one slot).
        if slots[i].EndGroup? {
          if i < e {
            ItemStep(slots, i, e);
          }
          return None;
        }
        if Matches(slots[i], key) {
          return Some(i);
        }
        SearchStep(slots, i, e, key);
        i := i + ItemLen(ShapeOf(slots[i]));
      }
      return None;
    }

    /** `rotate_in_current_position`: brings the slot at `p` to the cursor by
        rotating the rest of the current group left; both bounds are
        asserted. The ghost zipper is left to the caller, which knows whether
        `p` lies between two items. */
    method RotateInCurrentPosition(p: nat) returns (r: Result<()>)
      requires Valid()
      modifies cache
      ensures r.Panic? <==> !(old(pos) <= p <= old(GroupEnd()))
      ensures r.Ok? ==> cache.slots == RotateRange(old(cache.slots), pos, p - pos, old(GroupEnd()))
      ensures r.Ok? ==> cache.Consistent()
      ensures cache.groups == old(cache.groups) && cache.nextKey == old(cache.nextKey)
    {
      if p < pos {
        return Panic("assertion failed: pos >= self.pos");
      }
      var groupEnd := GroupEndPosition();
      if p > groupEnd {
        return Panic("assertion failed: pos <= group_end_pos");
      }
      RotateSlots(cache, pos, p - pos, groupEnd);
      return Ok(());
    }

    /** `sync`: looks the key up in the current group and, when it is found,
        rotates its item to the cursor. The rest of the table is unchanged. */
    method Sync(key: CallKey) returns (found: bool)
      requires Valid()
      modifies this, cache
      ensures found <==> old(Search(key)).Some?
      ensures found ==>
                cache.slots == RotateRange(old(cache.slots), old(pos), old(Search(key)).value - old(pos), old(GroupEnd()))
                && cache.slots[old(pos)] == old(cache.slots[Search(key).value])
      ensures !found ==> cache.slots == old(cache.slots) && curRight == old(curRight)
      ensures Valid() && GroupEnd() == old(GroupEnd())
      ensures pos <= old(GroupEnd()) && cache.slots[..pos] == old(cache.slots)[..pos]
      ensures pos == old(pos) && groupStack == old(groupStack) && frames == old(frames) && curLeft == old(curLeft)
      ensures cache.groups == old(cache.groups) && cache.nextKey == old(cache.nextKey)
    {
      ghost var s0, e0 := cache.slots, GroupEnd();
      var hit := FindTagInCurrentGroup(key);
      match hit
      case None =>
        found := false;
      case Some(p) =>
        assert SplitsAt(s0, pos, p, e0) by {
          SearchFindsFirst(key);
        }
        RotateHead(s0, pos, p - pos, e0);
        RotateToCursor(p);
        found := true;
    }

    /** Brings the item starting at `p`, ahead of the cursor in the current
        group, to the cursor; the items in between follow it. */
    method RotateToCursor(p: nat)
      requires Valid() && pos <= p < GroupEnd() && SplitsAt(cache.slots, pos, p, GroupEnd())
      modifies this, cache
      ensures cache.slots == RotateRange(old(cache.slots), old(pos), p - old(pos), old(GroupEnd()))
      ensures Valid() && GroupEnd() == old(GroupEnd())
      ensures pos == old(pos) && groupStack == old(groupStack) && frames == old(frames) && curLeft == old(curLeft)
      ensures cache.groups == old(cache.groups) && cache.nextKey == old(cache.nextKey)
    {
      ghost var s0, e0 := cache.slots, GroupEnd();
      ghost var right := Shapes(s0[p..e0]) + Shapes(s0[pos..p]);
      assert |right| == |curRight|;
      LayoutRotate(s0, pos, groupStack, frames, curLeft, curRight, p, e0);
      var rotated := RotateInCurrentPosition(p);
      assert rotated.Ok? && cache.slots == RotateRange(s0, pos, p - pos, e0);
      curRight := right;
    }

    /** The miss branch of `start_group`: a new group entry with the given
        parent, clean, under the next fresh key, and its start and end slots
        inserted at the cursor, one after the other. */
    method InsertGroup(key: CallKey, parent: Option<GroupKey>)
      requires Valid() && parent == ParentGroupKey()
      modifies this, cache
      ensures pos <= old(GroupEnd())
      ensures cache.slots == Insert(old(cache.slots), pos, [Slot.StartGroup(key, old(cache.nextKey), 2), Slot.EndGroup])
      ensures cache.groups == old(cache.groups)[old(cache.nextKey) := Group(parent, false)]
      ensures cache.nextKey == old(cache.nextKey) + 1
      ensures Valid() && curRight == [Open(2), Close] + old(curRight)
      ensures pos == old(pos) && groupStack == old(groupStack) && frames == old(frames) && curLeft == old(curLeft)
    {
      var groupKey := cache.nextKey;
      ghost var s0 := cache.slots;
      AddGroup(s0, cache.groups, groupKey, pos, key, parent);
      LayoutInsertGroup(s0, pos, groupStack, frames, curLeft, curRight, [Slot.StartGroup(key, groupKey, 2), Slot.EndGroup]);
      InsertTwice(s0, pos, Slot.StartGroup(key, groupKey, 2), Slot.EndGroup);
      cache.groups := cache.groups[groupKey := Group(parent, false)];
      cache.nextKey := cache.nextKey + 1;
      // 2 = initial length of a group: its start and end slots
      cache.slots := Insert(cache.slots, pos, [Slot.StartGroup(key, groupKey, 2)]);
      cache.slots := Insert(cache.slots, pos + 1, [Slot.EndGroup]);
      curRight := [Open(2), Close] + curRight;
    }

    /** The last step of `start_group`: the group whose start is at the
        cursor becomes the current group. */
    method EnterCurrentGroup()
      requires Valid() && pos < GroupEnd() && cache.slots[pos].StartGroup?
      modifies this
      ensures Valid() && pos == old(pos) + 1 && groupStack == old(groupStack) + [old(pos)]
    {
      LayoutHead(cache.slots, pos, groupStack, frames, curLeft, curRight);
      var n := cache.slots[pos].len as nat;
      LayoutEnter(cache.slots, pos, groupStack, frames, curLeft, curRight, n);
      frames := frames + [Frame(curLeft, curRight[0], curRight[n..])];
      curLeft, curRight := [], curRight[1..n - 1];
      groupStack := groupStack + [pos];
      pos := pos + 1;
    }

    /** `start_group`: reuses the group with `key` found in the current group,
        rotated to the cursor, and returns its dirty flag; otherwise inserts a
        new group of length 2 with a clean entry in the group map whose parent
        is the enclosing group, and returns false. Either way the group is
        entered. A key that names a value panics. */
    method StartGroup(key: CallKey) returns (r: Result<bool>)
      requires Valid()
      modifies this, cache
      ensures r.Panic? <==> old(Search(key)).Some? && old(cache.slots[Search(key).value]).Value?
      ensures r.Ok? ==> Valid() && pos == old(pos) + 1 && groupStack == old(groupStack) + [old(pos)]
      ensures r.Ok? ==> cache.slots[old(pos)].StartGroup? && cache.slots[old(pos)].key == key
      ensures r.Ok? && old(Search(key)).Some? ==>
                cache.slots == RotateRange(old(cache.slots), old(pos), old(Search(key)).value - old(pos), old(GroupEnd()))
                && cache.groups == old(cache.groups) && cache.nextKey == old(cache.nextKey)
                && cache.slots[old(pos)].groupKey in cache.groups
                && r.value == cache.groups[cache.slots[old(pos)].groupKey].dirty
      ensures r.Ok? && old(Search(key)).None? ==>
                cache.slots == Insert(old(cache.slots), old(pos), [Slot.StartGroup(key, old(cache.nextKey), 2), Slot.EndGroup])
                && cache.groups == old(cache.groups)[old(cache.nextKey) := Group(old(ParentGroupKey()), false)]
                && cache.nextKey == old(cache.nextKey) + 1 && !r.value
    {
      var found := Sync(key);
      var parent := ParentGroupKey();
      var dirty: bool;
      if found {
        match cache.slots[pos]
        case StartGroup(_, groupKey, _) =>
          cache.StartKeyLive(pos);
          dirty := cache.groups[groupKey].dirty;
        case _ =>
          return Panic("unexpected slot type");
      } else {
        InsertGroup(key, parent);
        dirty := false;
      }
      EnterCurrentGroup();
      return Ok(dirty);
    }

    /** The first half of `end_group`: the slots from the cursor to the end of
        the current group are drained, and the group of every group start
        among them leaves the map (removing a key that is already gone does
        nothing). */
    method DrainCurrentGroup()
      requires Valid()
      modifies cache
      ensures pos <= old(GroupEnd()) <= |old(cache.slots)|
      ensures cache.slots == Drain(old(cache.slots), pos, old(GroupEnd()))
      ensures cache.groups == old(cache.groups) - KeySet(old(cache.slots)[pos..old(GroupEnd())])
      ensures cache.nextKey == old(cache.nextKey)
    {
      var groupEnd := GroupEndPosition();
      var slots := cache.slots;
      var groups := RemoveGroupsOf(cache.groups, slots[pos..groupEnd]);
      var kept := Drain(slots, pos, groupEnd);
      cache.groups := groups;
      cache.slots := kept;
    }

    /** `end_group`: drops what is left of the current group, steps past its
        `EndGroup`, pops the group, clears its dirty flag and records its span
        as its length. An empty group stack and a length that does not fit in
        a `u32` panic. */
    method EndGroup() returns (r: Result<()>)
      requires Valid()
      modifies this, cache
      ensures r.Panic? <==> old(groupStack) == [] || old(pos) + 1 - old(groupStack)[|old(groupStack)| - 1] >= U32_LIMIT
      ensures r.Ok? ==> Valid() && pos == old(pos) + 1 && groupStack == old(groupStack)[..|old(groupStack)| - 1]
      ensures r.Ok? ==> cache.slots == CloseSlots(old(cache.slots), old(OpenStart()), old(pos), old(GroupEnd()))
      ensures r.Ok? ==>
                old(cache.slots[OpenStart()].groupKey) in old(cache.groups) - KeySet(old(cache.slots[pos..GroupEnd()]))
                && cache.groups
                   == CloseGroups(old(cache.groups), old(cache.slots[pos..GroupEnd()]), old(cache.slots[OpenStart()].groupKey))
      ensures cache.nextKey == old(cache.nextKey)
    {
      ghost var s0, g0, e0, p0, gs0 := cache.slots, cache.groups, GroupEnd(), pos, groupStack;
      ghost var fs, left, right := frames, curLeft, curRight;
      DrainCurrentGroup();
      // skip the `EndGroup` marker
      pos := pos + 1;
      if |groupStack| == 0 {
        return Panic("unbalanced groups");
      }
      var start := groupStack[|groupStack| - 1];
      groupStack := groupStack[..|groupStack| - 1];
      if pos - start >= U32_LIMIT {
        return Panic("called `Result::unwrap()` on an `Err` value");
      }
      ghost var fs1, left1, right1 := fs[..|fs| - 1], fs[|fs| - 1].left + ([Open(|left| + 2)] + left + [Close]), fs[|fs| - 1].right;
      LayoutClose(s0, p0, gs0, fs, left, right, start, e0, fs1, left1, right1);
      CloseConsistent(s0, g0, cache.nextKey, start, p0, e0);
      ghost var closed := CloseSlots(s0, start, p0, e0);
      ghost var clean := CloseGroups(g0, s0[p0..e0], s0[start].groupKey);
      assert cache.slots[start] == s0[start];
      CloseOpenGroup(start, closed, clean, fs1, left1, right1);
      return Ok(());
    }

    /** The second half of `end_group`, once the dead slots are drained and
        the group is popped: the group's start gets its span as length and its
        group is marked clean, which yields the table `closed`, the map `clean`
        and the zipper `fs`, `left`, `right` of the enclosing group. */
    method CloseOpenGroup(start: nat, ghost closed: seq<Slot>, ghost clean: map<GroupKey, Group>,
                          ghost fs: seq<Frame>, ghost left: seq<Shape>, ghost right: seq<Shape>)
      requires start < pos && start < |cache.slots| && cache.slots[start].StartGroup? && pos - start < U32_LIMIT
      requires cache.slots[start].groupKey in cache.groups
      requires closed == cache.slots[start := SetLen(cache.slots[start], pos - start)]
      requires clean == cache.groups[cache.slots[start].groupKey := cache.groups[cache.slots[start].groupKey].(dirty := false)]
      requires KeysMatch(closed, clean) && ParentsBelow(clean) && KeysBelow(clean, cache.nextKey)
      requires Layout(closed, pos, groupStack, fs, left, right)
      modifies this, cache
      ensures cache.slots == closed && cache.groups == clean && Valid()
      ensures pos == old(pos) && groupStack == old(groupStack) && cache.nextKey == old(cache.nextKey)
    {
      var groupKey := cache.slots[start].groupKey;
      cache.groups := cache.groups[groupKey := cache.groups[groupKey].(dirty := false)];
      cache.slots := cache.slots[start := SetLen(cache.slots[start], pos - start)];
      frames, curLeft, curRight := fs, left, right;
    }

    /** `finish`: closes the root group, then asserts that no group is left
        open and that the cursor reached the end of the table. */
    method Finish() returns (r: Result<CacheInner>)
      requires Valid()
      modifies this, cache
      ensures r.Panic? <==>
                old(groupStack) == [] || old(pos) + 1 - old(groupStack)[|old(groupStack)| - 1] >= U32_LIMIT
                || |old(groupStack)| != 1 || old(GroupEnd()) + 1 != |old(cache.slots)|
      ensures r.Ok? ==> r.value == cache && cache.WellFormed() && pos == |cache.slots| && groupStack == []
      ensures r.Ok? ==> cache.slots == CloseSlots(old(cache.slots), old(OpenStart()), old(pos), old(GroupEnd()))
      ensures r.Ok? ==>
                old(cache.slots[OpenStart()].groupKey) in old(cache.groups) - KeySet(old(cache.slots[pos..GroupEnd()]))
                && cache.groups
                   == CloseGroups(old(cache.groups), old(cache.slots[pos..GroupEnd()]), old(cache.slots[OpenStart()].groupKey))
      ensures cache.nextKey == old(cache.nextKey)
    {
      var closed := EndGroup();
      if closed.Panic? {
        return Panic(closed.msg);
      }
      if |groupStack| != 0 {
        return Panic("unbalanced groups");
      }
      if pos != |cache.slots| {
        return Panic("assertion `left == right` failed");
      }
      LayoutRoot(cache.slots, pos, groupStack, frames, curLeft, curRight);
      return Ok(cache);
    }

    /** `skip`: steps over the item at the cursor, a group by its `len` and a
        value or placeholder by one slot; at an `EndGroup` there is nothing
        to skip. Indexing past the table's end panics. */
    method Skip() returns (r: Result<()>)
      requires Valid()
      modifies this
      ensures r.Panic? <==> old(pos) >= |cache.slots|
      ensures r.Ok? ==> Valid()
      ensures r.Ok? && cache.slots[old(pos)].EndGroup? ==> pos == old(pos) && curLeft == old(curLeft) && curRight == old(curRight)
      ensures r.Ok? && !cache.slots[old(pos)].EndGroup? ==>
                pos == old(pos) + ItemLen(ShapeOf(cache.slots[old(pos)]))
                && 1 <= pos - old(pos) <= |old(curRight)|
                && curLeft == old(curLeft) + old(curRight)[..pos - old(pos)] && curRight == old(curRight)[pos - old(pos)..]
      ensures groupStack == old(groupStack) && frames == old(frames)
    {
      if pos >= |cache.slots| {
        return Panic("index out of bounds");
      }
      if cache.slots[pos].EndGroup? {
        return Ok(());
      }
      LayoutAhead(cache.slots, pos, groupStack, frames, curLeft, curRight);
      LayoutStep(cache.slots, pos, groupStack, frames, curLeft, curRight);
      // a group start is skipped by its `len`, a value or placeholder by one
      var n := ItemLen(ShapeOf(cache.slots[pos]));
      curLeft, curRight := curLeft + curRight[..n], curRight[n..];
      pos := pos + n;
      return Ok(());
    }

    /** `skip_until_end_of_group`: skips items until the cursor is at an
        `EndGroup`. At the top level there is none, and the walk runs off
        the table's end. */
    method SkipUntilEndOfGroup() returns (r: Result<()>)
      requires Valid()
      modifies this
      ensures r.Panic? <==> old(groupStack) == []
      ensures r.Ok? ==> Valid() && pos == old(GroupEnd()) && cache.slots[pos].EndGroup?
      ensures r.Ok? ==> curRight == []
      ensures groupStack == old(groupStack) && frames == old(frames)
    {
      ghost var e := GroupEnd();
      while pos >= |cache.slots| || !cache.slots[pos].EndGroup?
        invariant Valid() && groupStack == old(groupStack) && frames == old(frames) && GroupEnd() == e
        decreases |curRight|
      {
        var skipped := Skip();
        if skipped.Panic? {
          assert groupStack == [];
          return skipped;
        }
      }
      LayoutAhead(cache.slots, pos, groupStack, frames, curLeft, curRight);
      return Ok(());
    }

    /** `expect_value`: a value slot with the key at the cursor yields a copy
        of its value, checked against the expected type; anything else gets a
        placeholder with the key inserted at the cursor. Either way the cursor
        steps past the slot, whose index is returned. */
    method ExpectValue(key: CallKey, tag: TypeTag) returns (r: Result<(Option<Dyn>, nat)>)
      requires Valid()
      modifies this, cache
      ensures r.Panic? <==>
                old(pos) >= |old(cache.slots)|
                || (IsValueFor(old(cache.slots)[old(pos)], key) && old(cache.slots)[old(pos)].value.tag != tag)
      ensures r.Ok? ==> Valid() && r.value.1 == old(pos) && pos == old(pos) + 1
      ensures r.Ok? && IsValueFor(old(cache.slots)[old(pos)], key) ==>
                r.value.0 == Some(old(cache.slots)[old(pos)].value) && cache.slots == old(cache.slots)
      ensures r.Ok? && !IsValueFor(old(cache.slots)[old(pos)], key) ==>
                r.value.0 == None && cache.slots == Insert(old(cache.slots), old(pos), [Placeholder(key)])
      ensures cache.groups == old(cache.groups) && cache.nextKey == old(cache.nextKey)
      ensures groupStack == old(groupStack) && frames == old(frames)
    {
      var slot := pos;
      if slot >= |cache.slots| {
        return Panic("index out of bounds");
      }
      var value: Option<Dyn>;
      if IsValueFor(cache.slots[slot], key) {
        var stored := cache.slots[slot].value;
        if stored.tag != tag {
          return Panic("unexpected type");
        }
        value := Some(stored);
        StepOverLeaf();
      } else {
        // otherwise, insert a new entry
        InsertLeaf(Placeholder(key));
        value := None;
      }
      return Ok((value, slot));
    }

    /** `set_value`: stores `value` in the value or placeholder slot `slot`
        (typically one `expect_value` returned), keeping its key. Any other
        slot, and an index past the table's end, panics. */
    method SetValue(slot: nat, value: Dyn) returns (r: Result<()>)
      requires Valid()
      modifies cache
      ensures r.Panic? <==> slot >= |old(cache.slots)| || !(old(cache.slots)[slot].Value? || old(cache.slots)[slot].Placeholder?)
      ensures r.Ok? ==> Valid() && cache.slots == old(cache.slots)[slot := Value(old(cache.slots)[slot].key, value)]
      ensures cache.groups == old(cache.groups) && cache.nextKey == old(cache.nextKey)
    {
      if slot >= |cache.slots| {
        return Panic("index out of bounds");
      }
      var key: CallKey;
      match cache.slots[slot] {
        case Value(k, _) =>
          key := k;
        case Placeholder(k) =>
          key := k;
        case _ =>
          return Panic("must call set_value on a placeholder or value slot");
      }
      ghost var s0 := cache.slots;
      LayoutReplace(s0, pos, groupStack, frames, curLeft, curRight, slot, Value(key, value));
      ReplaceLeafKeys(s0, cache.groups, slot, Value(key, value));
      cache.slots := cache.slots[slot := Value(key, value)];
      return Ok(());
    }

    /** Moves the cursor past the value or placeholder slot at it. */
    method StepOverLeaf()
      requires Valid() && pos < |cache.slots| && (cache.slots[pos].Value? || cache.slots[pos].Placeholder?)
      modifies this
      ensures Valid() && pos == old(pos) + 1 && old(curRight) != []
      ensures curLeft == old(curLeft) + [Leaf] && curRight == old(curRight)[1..]
      ensures groupStack == old(groupStack) && frames == old(frames)
    {
      LayoutAhead(cache.slots, pos, groupStack, frames, curLeft, curRight);
      LayoutStep(cache.slots, pos, groupStack, frames, curLeft, curRight);
      curLeft, curRight := curLeft + curRight[..1], curRight[1..];
      pos := pos + 1;
    }

    /** Inserts a value or placeholder slot at the cursor and moves the
        cursor past it. */
    method InsertLeaf(x: Slot)
      requires Valid() && (x.Value? || x.Placeholder?)
      modifies this, cache
      ensures old(pos) <= |old(cache.slots)| && cache.slots == Insert(old(cache.slots), old(pos), [x])
      ensures Valid() && pos == old(pos) + 1 && curLeft == old(curLeft) + [Leaf] && curRight == old(curRight)
      ensures cache.groups == old(cache.groups) && cache.nextKey == old(cache.nextKey)
      ensures groupStack == old(groupStack) && frames == old(frames)
    {
      ghost var s0 := cache.slots;
      LayoutInsertLeaf(s0, pos, groupStack, frames, curLeft, curRight, x);
      InsertLeafKeys(s0, cache.groups, pos, x);
      cache.slots := Insert(cache.slots, pos, [x]);
      curLeft := curLeft + [Leaf];
      pos := pos + 1;
    }

    /** The hit branch of `compare_and_update_value`, with the value slot
        that `sync` brought to the cursor: a stored value of another type
        panics; a new value that is not the same as the stored one replaces
        it and reports a change. */
    method UpdateValueAtCursor(newValue: Dyn, same: Same) returns (r: Result<bool>)
      requires Valid() && pos < |cache.slots| && cache.slots[pos].Value?
      modifies cache
      ensures r.Panic? <==> old(cache.slots[pos]).value.tag != newValue.tag
      ensures r.Ok? ==> Valid() && r.value == !same(newValue, old(cache.slots[pos]).value)
      ensures r.Ok? && r.value ==> cache.slots == old(cache.slots)[pos := Value(old(cache.slots[pos]).key, newValue)]
      ensures r.Ok? && !r.value ==> cache.slots == old(cache.slots)
      ensures cache.groups == old(cache.groups) && cache.nextKey == old(cache.nextKey)
    {
      var key, stored := cache.slots[pos].key, cache.slots[pos].value;
      if stored.tag != newValue.tag {
        return Panic("entry type mismatch");
      }
      if !same(newValue, stored) {
        ghost var s0 := cache.slots;
        LayoutReplace(s0, pos, groupStack, frames, curLeft, curRight, pos, Value(key, newValue));
        ReplaceLeafKeys(s0, cache.groups, pos, Value(key, newValue));
        cache.slots := cache.slots[pos := Value(key, newValue)];
        return Ok(true);
      }
      return Ok(false);
    }

    /** `compare_and_update_value`: the value slot with the key found in the
        current group is rotated to the cursor and updated when the new value
        is not the same as the stored one (a group start with the key, or a
        stored value of another type, panics); without one, a value slot is
        inserted at the cursor. Returns whether the value changed; the cursor
        moves past the slot. */
    method CompareAndUpdateValue(key: CallKey, newValue: Dyn, same: Same) returns (r: Result<bool>)
      requires Valid()
      modifies this, cache
      ensures r.Panic? <==>
                old(Search(key)).Some?
                && (old(cache.slots[Search(key).value]).StartGroup?
                    || old(cache.slots[Search(key).value]).value.tag != newValue.tag)
      ensures r.Ok? ==> Valid() && pos == old(pos) + 1 && groupStack == old(groupStack)
      ensures r.Ok? && old(Search(key)).Some? ==>
                var rotated := RotateRange(old(cache.slots), old(pos), old(Search(key)).value - old(pos), old(GroupEnd()));
                var stored := old(cache.slots[Search(key).value]);
                r.value == !same(newValue, stored.value)
                && cache.slots == (if r.value then rotated[old(pos) := Value(key, newValue)] else rotated)
      ensures r.Ok? && old(Search(key)).None? ==>
                r.value && cache.slots == Insert(old(cache.slots), old(pos), [Value(key, newValue)])
      ensures r.Ok? ==> cache.slots == old(SyncedSlots(key, Value(key, newValue)))[old(pos) := cache.slots[old(pos)]]
      ensures cache.groups == old(cache.groups) && cache.nextKey == old(cache.nextKey)
    {
      var found := Sync(key);
      var changed: bool;
      if found {
        if !cache.slots[pos].Value? {
          // not expecting anything else
          return Panic("unexpected slot type");
        }
        var updated := UpdateValueAtCursor(newValue, same);
        if updated.Panic? {
          return Panic(updated.msg);
        }
        changed := updated.value;
        StepOverLeaf();
      } else {
        // insert entry
        InsertLeaf(Value(key, newValue));
        changed := true;
      }
      return Ok(changed);
    }

    /** `CacheWriter::new`: a writer at the start of the table, with the root
        group (call key 0) started. */
    static method New(cache: CacheInner) returns (r: Result<CacheWriter>)
      requires cache.WellFormed()
      modifies cache
      ensures r.Panic? <==>
                var hit := FindFrom(old(cache.slots), 0, |old(cache.slots)|, CallKey(0));
                hit.Some? && old(cache.slots)[hit.value].Value?
      ensures r.Ok? ==> fresh(r.value) && r.value.cache == cache && r.value.Valid()
      ensures r.Ok? ==> r.value.pos == 1 && r.value.groupStack == [0] && cache.slots[0].StartGroup? && cache.slots[0].key == CallKey(0)
      ensures r.Ok? ==>
                var hit := FindFrom(old(cache.slots), 0, |old(cache.slots)|, CallKey(0));
                if hit.Some? then
                  cache.slots == RotateRange(old(cache.slots), 0, hit.value, |old(cache.slots)|)
                  && cache.groups == old(cache.groups) && cache.nextKey == old(cache.nextKey)
                else
                  cache.slots == Insert(old(cache.slots), 0, [Slot.StartGroup(CallKey(0), old(cache.nextKey), 2), Slot.EndGroup])
                  && cache.groups == old(cache.groups)[old(cache.nextKey) := Group(None, false)]
                  && cache.nextKey == old(cache.nextKey) + 1
    {
      var writer := new CacheWriter.Init(cache);
      var started := writer.StartGroup(CallKey(0));
      if started.Panic? {
        return Panic(started.msg);
      }
      return Ok(writer);
    }
  }
}
