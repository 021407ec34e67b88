/** `GapBuffer` (kyute/src/widget/gap_buffer.rs): a growable buffer of cells
    holding a sequence of elements with one gap of free cells, which is moved
    to where an element is inserted or removed. Raw addresses into the buffer
    are cell indices here. */
module GapBuffers {
  import opened Wrappers

  // ---------------------------------------------------------------------------
  // The layout: logical positions and cells
  // ---------------------------------------------------------------------------

  /** The elements a buffer of `cells` with the gap `[gapPos, gapPos + gapSize)`
      holds, in order: the cells before the gap and the cells after it. */
  function Logical<T>(cells: seq<T>, gapPos: nat, gapSize: nat): (r: seq<T>)
    requires gapPos + gapSize <= |cells|
    ensures |r| == |cells| - gapSize
  {
    cells[..gapPos] + cells[gapPos + gapSize..]
  }

  /** The cell of logical position `i`: before the gap it is the same index,
      from the gap on it is `gapSize` cells further. */
  function Phys(gapPos: nat, gapSize: nat, i: nat): nat {
    if i < gapPos then i else i + gapSize
  }

  /** A cell not strictly inside the gap `[gapStart, gapEnd)`. */
  predicate OutsideGap(p: nat, gapStart: nat, gapEnd: nat) {
    !(gapStart <= p < gapEnd)
  }

  /** The cells `[lo, hi)`, in order. */
  function Cells(lo: nat, hi: nat): (r: seq<nat>)
    requires lo <= hi
    ensures |r| == hi - lo
  {
    seq<nat>(hi - lo, k requires 0 <= k < hi - lo => lo + k)
  }

  /** The cells holding elements: those before the gap and those after it,
      which `Drop` releases. */
  function LiveCells(gapPos: nat, gapSize: nat, cap: nat): seq<nat>
    requires gapPos + gapSize <= cap
  {
    Cells(0, gapPos) + Cells(gapPos + gapSize, cap)
  }

  /** The cells of the logical positions `[lo, hi)`, in order. */
  function PhysRange(gapPos: nat, gapSize: nat, lo: nat, hi: nat): (r: seq<nat>)
    requires lo <= hi
    ensures |r| == hi - lo
  {
    seq<nat>(hi - lo, k requires 0 <= k < hi - lo => Phys(gapPos, gapSize, lo + k))
  }

  /** Every element sits in the cell `Phys` gives, the cells of the elements
      are in increasing order, and in order they are the live cells. The
      position one past the last element maps to the end of the buffer. */
  lemma {:induction false} PhysSpec<T>(cells: seq<T>, gapPos: nat, gapSize: nat)
    requires gapPos + gapSize <= |cells|
    ensures forall i :: 0 <= i < |cells| - gapSize ==>
              Phys(gapPos, gapSize, i) < |cells| && Logical(cells, gapPos, gapSize)[i] == cells[Phys(gapPos, gapSize, i)]
    ensures forall i, j :: 0 <= i < j <= |cells| - gapSize ==> Phys(gapPos, gapSize, i) < Phys(gapPos, gapSize, j)
    ensures PhysRange(gapPos, gapSize, 0, |cells| - gapSize) == LiveCells(gapPos, gapSize, |cells|)
    ensures Phys(gapPos, gapSize, |cells| - gapSize) == |cells|
  {
    var live := LiveCells(gapPos, gapSize, |cells|);
    var r := PhysRange(gapPos, gapSize, 0, |cells| - gapSize);
    forall k | 0 <= k < |r|
      ensures r[k] == live[k]
    {
      if k < gapPos {
        assert live[k] == Cells(0, gapPos)[k];
      } else {
        assert live[k] == Cells(gapPos + gapSize, |cells|)[k - gapPos];
      }
    }
  }

  /** The capacity `RawVec::grow` moves to: 1 from an empty buffer, otherwise
      twice the old one. */
  function GrownCapacity(cap: nat): (r: nat)
    ensures r > cap
    ensures cap == 0 ==> r == 1
    ensures cap > 0 ==> r == 2 * cap
  {
    if cap == 0 then 1 else 2 * cap
  }

  // ---------------------------------------------------------------------------
  // Moving the gap
  // ---------------------------------------------------------------------------

  /** The copy `move_gap` makes to bring the gap from `gapPos` to `pos`:
      `(source, destination, count)`. Moving right brings the elements after
      the gap down to its start; moving left takes the elements from `pos` up
      to the gap's end. */
  function GapCopy(gapPos: nat, gapSize: nat, pos: nat): (r: (nat, nat, nat))
  {
    if pos > gapPos then (gapPos + gapSize, gapPos, pos - gapPos)
    else (pos, pos + gapSize, gapPos - pos)
  }

  /** The requirement of `ptr::copy_nonoverlapping`: the source range and the
      destination range do not overlap. */
  predicate Nonoverlapping(src: nat, dst: nat, count: nat) {
    src + count <= dst || dst + count <= src
  }

  /** `move_gap` calls `copy_nonoverlapping` on ranges that overlap exactly
      when the gap moves farther than its own size. */
  lemma {:induction false} GapCopyOverlaps(gapPos: nat, gapSize: nat, pos: nat)
    ensures var (src, dst, count) := GapCopy(gapPos, gapSize, pos);
            count > 0 && !Nonoverlapping(src, dst, count) <==>
              (pos > gapPos && pos - gapPos > gapSize) || (pos < gapPos && gapPos - pos > gapSize)
  {
  }

  /** A gap of one cell at the start of three cells, moved to position 2:
      the copy of cells `[1, 3)` onto `[0, 2)` overlaps. */
  lemma GapCopyOverlapExample()
    ensures var (src, dst, count) := GapCopy(0, 1, 2);
            (src, dst, count) == (1, 0, 2) && !Nonoverlapping(src, dst, count)
  {
  }

  /** Copying `count` cells from `src` to `dst` with the semantics of
      `ptr::copy` (`memmove`): every destination cell gets the value its
      source cell had before the copy. */
  method CopyWithin<T>(a: array<T>, src: nat, dst: nat, count: nat)
    requires src + count <= a.Length && dst + count <= a.Length
    modifies a
    ensures forall i :: 0 <= i < a.Length ==>
              a[i] == (if dst <= i < dst + count then old(a[src + i - dst]) else old(a[i]))
  {
    forall i | dst <= i < dst + count {
      a[i] := a[src + i - dst];
    }
  }

  /** After the copy of `GapCopy`, the buffer with its gap at `pos` holds the
      elements the buffer with its gap at `gapPos` held. */
  lemma {:induction false} GapCopyKeepsElements<T>(before: seq<T>, after: seq<T>, gapPos: nat, gapSize: nat, pos: nat,
                                                    src: nat, dst: nat, count: nat)
    requires gapPos + gapSize <= |before| && pos + gapSize <= |before| && |after| == |before|
    requires (src, dst, count) == GapCopy(gapPos, gapSize, pos)
    requires forall i {:trigger after[i]} :: 0 <= i < |after| ==>
               after[i] == (if dst <= i < dst + count then before[src + i - dst] else before[i])
    ensures Logical(after, pos, gapSize) == Logical(before, gapPos, gapSize)
  {
    var l0 := Logical(before, gapPos, gapSize);
    var l1 := Logical(after, pos, gapSize);
    PhysSpec(before, gapPos, gapSize);
    PhysSpec(after, pos, gapSize);
    forall k | 0 <= k < |l0|
      ensures l1[k] == l0[k]
    {
      assert l1[k] == after[Phys(pos, gapSize, k)];
      assert l0[k] == before[Phys(gapPos, gapSize, k)];
      if pos > gapPos {
        assert dst == gapPos && count == pos - gapPos;
        if k < gapPos {
        } else if k < pos {
          assert after[k] == before[gapPos + gapSize + k - gapPos];
        } else {
          assert after[k + gapSize] == before[k + gapSize];
        }
      } else {
        assert src == pos && dst == pos + gapSize && count == gapPos - pos;
        if k < pos {
        } else if k < gapPos {
          assert after[k + gapSize] == before[pos + (k + gapSize) - (pos + gapSize)];
        } else {
          assert after[k + gapSize] == before[k + gapSize];
        }
      }
    }
  }

  // ---------------------------------------------------------------------------
  // Iterating over a range
  // ---------------------------------------------------------------------------

  /** The cell after `p` for an iterator: the next one, or the first cell
      after the gap when the next one is the gap's start. */
  function Step(p: nat, gapStart: nat, gapEnd: nat): nat {
    if p + 1 == gapStart then gapEnd else p + 1
  }

  predicate WalkOk(start: nat, end: nat, gapStart: nat, gapEnd: nat) {
    start <= end && gapStart <= gapEnd
    && OutsideGap(start, gapStart, gapEnd) && OutsideGap(end, gapStart, gapEnd)
  }

  /** The cells an iterator visits from `start` until it reaches `end`. */
  function Walk(start: nat, end: nat, gapStart: nat, gapEnd: nat): (r: seq<nat>)
    requires WalkOk(start, end, gapStart, gapEnd)
    ensures forall k :: 0 <= k < |r| ==> start <= r[k] < end
    decreases end - start
  {
    if start == end then []
    else [start] + Walk(Step(start, gapStart, gapEnd), end, gapStart, gapEnd)
  }

  /** An iterator over the logical range `[lo, hi)` visits the cells of
      those elements, in order. */
  lemma {:induction false} WalkRange(gapPos: nat, gapSize: nat, lo: nat, hi: nat)
    requires lo <= hi
    ensures WalkOk(Phys(gapPos, gapSize, lo), Phys(gapPos, gapSize, hi), gapPos, gapPos + gapSize)
    ensures Walk(Phys(gapPos, gapSize, lo), Phys(gapPos, gapSize, hi), gapPos, gapPos + gapSize)
            == PhysRange(gapPos, gapSize, lo, hi)
    decreases hi - lo
  {
    if lo < hi {
      WalkRange(gapPos, gapSize, lo + 1, hi);
      assert Step(Phys(gapPos, gapSize, lo), gapPos, gapPos + gapSize) == Phys(gapPos, gapSize, lo + 1);
      assert PhysRange(gapPos, gapSize, lo, hi) == [Phys(gapPos, gapSize, lo)] + PhysRange(gapPos, gapSize, lo + 1, hi);
    }
  }

  /** The elements in the cells `w`, in order. */
  function Gather<T>(cells: seq<T>, w: seq<nat>): (r: seq<T>)
    requires forall k :: 0 <= k < |w| ==> w[k] < |cells|
    ensures |r| == |w| && forall k :: 0 <= k < |w| ==> r[k] == cells[w[k]]
  {
    seq(|w|, k requires 0 <= k < |w| => cells[w[k]])
  }

  /** The elements in the cells of the logical positions `[lo, hi)` are the
      elements of that range. */
  lemma {:induction false} GatherRange<T>(cells: seq<T>, gapPos: nat, gapSize: nat, lo: nat, hi: nat)
    requires gapPos + gapSize <= |cells| && lo <= hi <= |cells| - gapSize
    ensures forall k :: 0 <= k < hi - lo ==> PhysRange(gapPos, gapSize, lo, hi)[k] < |cells|
    ensures Gather(cells, PhysRange(gapPos, gapSize, lo, hi)) == Logical(cells, gapPos, gapSize)[lo..hi]
  {
    PhysSpec(cells, gapPos, gapSize);
  }

  /** `Iter`: a cursor over the cells of a range, yielding the elements. The
      buffer is borrowed immutably, so its cells are a value here. */
  class Iter<T> {
    const cells: seq<T>
    var start: nat
    const end: nat
    const gapStart: nat
    const gapEnd: nat

    ghost predicate Valid()
      reads this
    {
      WalkOk(start, end, gapStart, gapEnd) && end <= |cells|
    }

    /** The elements still to come. */
    function Remaining(): (r: seq<T>)
      requires Valid()
      reads this
    {
      Gather(cells, Walk(start, end, gapStart, gapEnd))
    }

    constructor (cells: seq<T>, start: nat, end: nat, gapStart: nat, gapEnd: nat)
      requires WalkOk(start, end, gapStart, gapEnd) && end <= |cells|
      ensures this.cells == cells && this.start == start && this.end == end
      ensures this.gapStart == gapStart && this.gapEnd == gapEnd && Valid()
    {
      this.cells := cells;
      this.start := start;
      this.end := end;
      this.gapStart := gapStart;
      this.gapEnd := gapEnd;
    }

    /** `Iter::next`: the next element of the range, or `None` at its end. */
    method Next() returns (r: Option<T>)
      requires Valid()
      modifies this
      ensures Valid()
      ensures old(Remaining()) == [] ==> r == None && start == old(start)
      ensures old(Remaining()) != [] ==> r == Some(old(Remaining())[0]) && Remaining() == old(Remaining())[1..]
    {
      if start == end {
        return None;
      }
      var p := start;
      start := start + 1;
      if start == gapStart {
        start := gapEnd;
      }
      ghost var w := Walk(start, end, gapStart, gapEnd);
      assert Walk(p, end, gapStart, gapEnd) == [p] + w;
      return Some(cells[p]);
    }
  }

  /** `IterMut`: the same cursor over a mutable borrow, yielding the cells of
      the elements (an `&mut T` is the cell it points to). */
  class IterMut {
    var start: nat
    const end: nat
    const gapStart: nat
    const gapEnd: nat

    ghost predicate Valid()
      reads this
    {
      WalkOk(start, end, gapStart, gapEnd)
    }

    /** The cells still to come. */
    function Remaining(): (r: seq<nat>)
      requires Valid()
      reads this
    {
      Walk(start, end, gapStart, gapEnd)
    }

    constructor (start: nat, end: nat, gapStart: nat, gapEnd: nat)
      requires WalkOk(start, end, gapStart, gapEnd)
      ensures this.start == start && this.end == end && this.gapStart == gapStart && this.gapEnd == gapEnd
      ensures Valid()
    {
      this.start := start;
      this.end := end;
      this.gapStart := gapStart;
      this.gapEnd := gapEnd;
    }

    /** `IterMut::next`: the cell of the next element, or `None` at the end. */
    method Next() returns (r: Option<nat>)
      requires Valid()
      modifies this
      ensures Valid()
      ensures old(Remaining()) == [] ==> r == None && start == old(start)
      ensures old(Remaining()) != [] ==> r == Some(old(Remaining())[0]) && Remaining() == old(Remaining())[1..]
    {
      if start == end {
        return None;
      }
      var p := start;
      start := start + 1;
      if start == gapStart {
        start := gapEnd;
      }
      return Some(p);
    }
  }

  /** A bound of a `RangeBounds<usize>`. */
  datatype Bound = Included(at: nat) | Excluded(at: nat) | Unbounded

  /** The first logical position of a range with start bound `b`. */
  function FirstIndex(b: Bound): nat {
    match b
    case Included(i) => i
    case Excluded(i) => i + 1
    case Unbounded => 0
  }

  /** The logical position after a range with end bound `b`, in a buffer of
      `len` elements. */
  function StopIndex(b: Bound, len: nat): nat {
    match b
    case Included(i) => i + 1
    case Excluded(i) => i
    case Unbounded => len
  }

  // ---------------------------------------------------------------------------
  // The buffer
  // ---------------------------------------------------------------------------

  /** `GapBuffer<T>` over its `RawVec<T>`: the capacity is the length of the
      cell array. */
  class GapBuffer<T(0)> {
    var buf: array<T>
    var gapPos: nat
    var gapSize: nat

    ghost predicate Valid()
      reads this
    {
      gapPos + gapSize <= buf.Length
    }

    /** The elements held, in order. */
    function Contents(): seq<T>
      requires Valid()
      reads this, buf
    {
      Logical(buf[..], gapPos, gapSize)
    }

    /** `GapBuffer::new`: no cells, no elements. */
    constructor ()
      ensures Valid() && buf.Length == 0 && gapPos == 0 && gapSize == 0 && Contents() == []
    {
      buf := new T[0];
      gapPos := 0;
      gapSize := 0;
    }

    /** `GapBuffer::len`: capacity minus gap size, the number of elements. */
    function Len(): (r: nat)
      requires Valid()
      reads this, buf
      ensures r == |Contents()|
    {
      buf.Length - gapSize
    }

    /** `RawVec::grow`: reallocates to `GrownCapacity` cells, keeping the old
        cells at the front. */
    method Grow()
      requires Valid()
      modifies this
      ensures fresh(buf) && buf.Length == GrownCapacity(old(buf.Length))
      ensures buf[..old(buf.Length)] == old(buf[..])
      ensures gapPos == old(gapPos) && gapSize == old(gapSize) && Valid()
    {
      var a := new T[GrownCapacity(buf.Length)];
      var i := 0;
      while i < buf.Length
        invariant 0 <= i <= buf.Length
        invariant a[..i] == buf[..i]
        modifies a
      {
        a[i] := buf[i];
        i := i + 1;
      }
      assert a[..buf.Length] == buf[..];
      buf := a;
    }

    /** `GapBuffer::move_gap`: puts the gap at logical position `pos` without
        changing the elements. With `grow`, an empty gap first becomes the
        cells a grow adds at the end; without it, an empty gap only moves. */
    method MoveGap(pos: nat, grow: bool)
      requires Valid() && pos <= Len()
      modifies this, buf
      ensures Valid() && Contents() == old(Contents()) && gapPos == pos
      ensures grow && old(gapSize) == 0 ==>
                fresh(buf) && buf.Length == GrownCapacity(old(buf.Length)) && gapSize == buf.Length - old(buf.Length)
      ensures !(grow && old(gapSize) == 0) ==> buf == old(buf) && gapSize == old(gapSize)
    {
      if gapSize == 0 {
        if grow {
          var len := buf.Length;
          Grow();
          gapPos := len;
          gapSize := buf.Length - len;
          assert Contents() == old(Contents());
        } else {
          gapPos := pos;
          assert Contents() == buf[..] == old(Contents());
          return;
        }
      }
      ghost var before := buf[..];
      var (src, dst, count) := GapCopy(gapPos, gapSize, pos);
      if pos != gapPos {
        CopyWithin(buf, src, dst, count);
      }
      GapCopyKeepsElements(before, buf[..], gapPos, gapSize, pos, src, dst, count);
      gapPos := pos;
    }

    /** `GapBuffer::insert`: the element goes in at logical position `pos`,
        which must not be past the end. */
    method Insert(pos: nat, elem: T)
      requires Valid() && pos <= Len()
      modifies this, buf
      ensures Valid() && Contents() == old(Contents())[..pos] + [elem] + old(Contents())[pos..]
    {
      MoveGap(pos, true);
      ghost var before := buf[..];
      ghost var c0 := Contents();
      buf[pos] := elem;
      gapPos := gapPos + 1;
      gapSize := gapSize - 1;
      assert Contents() == c0[..pos] + [elem] + c0[pos..] by {
        assert before[..pos] == c0[..pos];
        assert before[pos + gapSize + 1..] == c0[pos..];
        assert buf[..] == before[pos := elem];
      }
    }

    /** `GapBuffer::remove`: takes out the element at logical position `pos`;
        panics when there is none. */
    method Remove(pos: nat) returns (r: Result<T>)
      requires Valid()
      modifies this, buf
      ensures r.Panic? <==> pos >= old(Len())
      ensures r.Ok? ==>
                Valid() && r.value == old(Contents())[pos]
                && Contents() == old(Contents())[..pos] + old(Contents())[pos + 1..]
    {
      if pos >= Len() {
        return Panic("assertion failed: pos < self.len()");
      }
      MoveGap(pos, false);
      ghost var c0 := Contents();
      var val := buf[gapPos + gapSize];
      gapSize := gapSize + 1;
      assert Contents() == c0[..pos] + c0[pos + 1..] by {
        assert buf[..pos] == c0[..pos];
        assert buf[pos + gapSize..] == c0[pos + 1..];
      }
      return Ok(val);
    }

    /** `GapBuffer::get_elem_ptr`: the cell of logical position `pos`, which
        may be one past the last element; panics beyond that. */
    function GetElemPtr(pos: nat): (r: Result<nat>)
      requires Valid()
      reads this, buf
      ensures r.Panic? <==> pos > Len()
      ensures r.Ok? && pos < Len() ==> r.value < buf.Length && buf[r.value] == Contents()[pos]
      ensures r.Ok? && pos == Len() ==> r.value == buf.Length
    {
      PhysSpec(buf[..], gapPos, gapSize);
      if pos > Len() then Panic("assertion failed: pos <= self.len()")
      else Ok(Phys(gapPos, gapSize, pos))
    }

    /** `GapBuffer::iter_bounds`: the cells of the first element of the
        range, of the position after it, and of the gap's start and end;
        panics when either end of the range is past the end. */
    function IterBounds(lo: Bound, hi: Bound): (r: Result<(nat, nat, nat, nat)>)
      requires Valid()
      reads this, buf
      ensures r.Panic? <==> FirstIndex(lo) > Len() || StopIndex(hi, Len()) > Len()
      ensures r.Ok? ==>
                r.value == (Phys(gapPos, gapSize, FirstIndex(lo)), Phys(gapPos, gapSize, StopIndex(hi, Len())),
                            gapPos, gapPos + gapSize)
    {
      var start :- GetElemPtr(FirstIndex(lo));
      var end :- GetElemPtr(StopIndex(hi, Len()));
      Ok((start, end, gapPos, gapPos + gapSize))
    }

    /** `GapBuffer::iter`: an iterator yielding the elements of the range in
        order, across the gap. A range must not end before it starts. */
    method Iterate(lo: Bound, hi: Bound) returns (r: Result<Iter<T>>)
      requires Valid() && FirstIndex(lo) <= StopIndex(hi, Len())
      ensures r.Panic? <==> StopIndex(hi, Len()) > Len()
      ensures r.Ok? ==> fresh(r.value) && r.value.Valid()
                        && r.value.Remaining() == Contents()[FirstIndex(lo)..StopIndex(hi, Len())]
    {
      var bounds :- IterBounds(lo, hi);
      var (start, end, gapStart, gapEnd) := bounds;
      WalkRange(gapPos, gapSize, FirstIndex(lo), StopIndex(hi, Len()));
      GatherRange(buf[..], gapPos, gapSize, FirstIndex(lo), StopIndex(hi, Len()));
      var it := new Iter(buf[..], start, end, gapStart, gapEnd);
      return Ok(it);
    }

    /** `GapBuffer::iter_mut`: an iterator yielding the cells of the range's
        elements in order, across the gap. */
    method IterateMut(lo: Bound, hi: Bound) returns (r: Result<IterMut>)
      requires Valid() && FirstIndex(lo) <= StopIndex(hi, Len())
      ensures r.Panic? <==> StopIndex(hi, Len()) > Len()
      ensures r.Ok? ==> fresh(r.value) && r.value.Valid()
                        && r.value.Remaining() == PhysRange(gapPos, gapSize, FirstIndex(lo), StopIndex(hi, Len()))
    {
      var bounds :- IterBounds(lo, hi);
      var (start, end, gapStart, gapEnd) := bounds;
      WalkRange(gapPos, gapSize, FirstIndex(lo), StopIndex(hi, Len()));
      var it := new IterMut(start, end, gapStart, gapEnd);
      return Ok(it);
    }
  }
}
