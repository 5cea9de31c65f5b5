// The element arena of crates/kael/src/arena.rs: chunked bump allocation with bulk clear, drop
// records and handles that notice a clear. Addresses are numbers; the address of a new chunk is
// whatever the system allocator hands out, which is disjoint from every chunk still allocated.
module Arenas {
  import opened Arithmetic
  import opened Options

  type Align = a: int | a > 0 witness 1

  datatype Layout = Layout(size: nat, align: Align)

  // ----- The specification -----

  /** The bytes `ptr.align_offset(align)` asks to skip. */
  function AlignOffset(addr: nat, align: Align): nat {
    (align - addr % align) % align
  }

  lemma AlignOffsetCases(addr: nat, align: Align)
    ensures AlignOffset(addr, align) == if addr % align == 0 then 0 else align - addr % align
  {
    var r := addr % align;
    if r == 0 {
      QuotientUnique(align - r, align, 1, 0);
    } else {
      QuotientUnique(align - r, align, 0, align - r);
    }
  }

  /** Skipping that many bytes reaches the least aligned address not below `addr`. */
  lemma AlignOffsetIsLeast(addr: nat, align: Align)
    ensures AlignOffset(addr, align) < align
    ensures (addr + AlignOffset(addr, align)) % align == 0
    ensures forall a :: addr <= a && a % align == 0 ==> addr + AlignOffset(addr, align) <= a
  {
    AlignOffsetCases(addr, align);
    var q, r, k := addr / align, addr % align, AlignOffset(addr, align);
    assert addr == q * align + r;
    var up := if r == 0 then q else q + 1;
    assert up * align == q * align + (if r == 0 then 0 else align);
    assert addr + k == up * align;
    MultipleModulo(up, align);
    forall a | addr <= a && a % align == 0
      ensures addr + k <= a
    {
      var p := a / align;
      assert a == p * align;
      if p < up {
        ProductsGrow(p, up - 1, align);
      } else {
        ProductsGrow(up, p, align);
      }
    }
  }

  datatype ChunkState = ChunkState(start: nat, end: nat, offset: nat) {
    function Reset(): ChunkState {
      this.(offset := start)
    }

    /** Bump allocation: the chunk afterwards and the address, or nothing if the object does not fit. */
    function Allocate(layout: Layout): Option<(ChunkState, nat)> {
      var aligned := offset + AlignOffset(offset, layout.align);
      var next := aligned + layout.size;
      if next <= end then Some((this.(offset := next), aligned)) else None
    }
  }

  function NewChunk(start: nat, size: nat): ChunkState {
    ChunkState(start, start + size, start)
  }

  /** An allocated object: which allocation it came from, where it is, and in which chunk. */
  datatype Element = Element(id: nat, addr: nat, layout: Layout, chunk: nat) {
    function End(): nat {
      addr + layout.size
    }
  }

  /** `token` counts the validity cells handed out so far, the last one being the current cell;
      `issued` and `dropped` are the history of allocations and of drops. */
  datatype ArenaState = ArenaState(
    chunks: seq<ChunkState>, elements: seq<Element>, token: nat, current: nat, chunkSize: nat,
    issued: nat, dropped: seq<nat>)
  {
    function Capacity(): nat {
      |chunks| * chunkSize
    }

    /** Take an object from the chunk at `index`. */
    function Take(index: nat, layout: Layout): (r: (ArenaState, Option<Element>))
      requires index < |chunks|
      ensures r.0.current == index && |r.0.chunks| == |chunks|
    {
      match chunks[index].Allocate(layout)
      case None => (this.(current := index), None)
      case Some((chunk, addr)) =>
        var e := Element(issued, addr, layout, index);
        (this.(chunks := chunks[index := chunk], elements := elements + [e], current := index, issued := issued + 1), Some(e))
    }

    function Push(site: nat): ArenaState {
      this.(chunks := chunks + [NewChunk(site, chunkSize)])
    }

    /** `alloc`: the current chunk, else the next one, which is pushed at `site` if there is none. No
        element means the source panics because its chunks are too small. */
    function Alloc(layout: Layout, site: nat): (r: (ArenaState, Option<Element>))
      requires current < |chunks|
      ensures r.0.current < |r.0.chunks|
    {
      if chunks[current].Allocate(layout).Some? then Take(current, layout)
      else
        var grown := if current + 1 < |chunks| then this else Push(site);
        grown.Take(current + 1, layout)
    }

    /** `clear`: drop everything, start a new validity cell, reset the chunks in use. */
    function Clear(): (r: ArenaState)
      requires current < |chunks|
      ensures r.current < |r.chunks|
    {
      this.(token := token + 1,
            elements := [],
            dropped := dropped + Ids(elements),
            chunks := seq(|chunks|, i requires 0 <= i < |chunks| => if i <= current then chunks[i].Reset() else chunks[i]),
            current := 0)
    }
  }

  function Ids(elements: seq<Element>): (ids: seq<nat>)
    ensures |ids| == |elements| && forall k :: 0 <= k < |ids| ==> ids[k] == elements[k].id
  {
    seq(|elements|, k requires 0 <= k < |elements| => elements[k].id)
  }

  function InitialState(chunkSize: nat, site: nat): ArenaState {
    ArenaState([NewChunk(site, chunkSize)], [], 0, 0, chunkSize, 0, [])
  }

  /** What the system allocator guarantees of the address of a new chunk. */
  ghost predicate IsFresh(s: ArenaState, site: nat) {
    site > 0 && forall i :: 0 <= i < |s.chunks| ==>
                   site + s.chunkSize <= s.chunks[i].start || s.chunks[i].end <= site
  }

  // ----- The invariant -----

  ghost predicate ChunksOk(s: ArenaState) {
    && s.chunkSize > 0 && s.current < |s.chunks|
    && (forall i :: 0 <= i < |s.chunks| ==>
          var c := s.chunks[i]; 0 < c.start <= c.offset <= c.end && c.end == c.start + s.chunkSize)
    && (forall i :: s.current < i < |s.chunks| ==> s.chunks[i].offset == s.chunks[i].start)
    && (forall i, j :: 0 <= i < j < |s.chunks| ==>
          s.chunks[i].end <= s.chunks[j].start || s.chunks[j].end <= s.chunks[i].start)
  }

  ghost predicate Apart(a: Element, b: Element) {
    a.End() <= b.addr || b.End() <= a.addr
  }

  /** Every live element is aligned and lies in one chunk, below its offset; no two overlap. */
  ghost predicate ElementsOk(s: ArenaState) {
    && (forall k :: 0 <= k < |s.elements| ==>
          var e := s.elements[k];
          && e.addr % e.layout.align == 0
          && e.chunk <= s.current && e.chunk < |s.chunks|
          && s.chunks[e.chunk].start <= e.addr && e.End() <= s.chunks[e.chunk].offset)
    && (forall k, l :: 0 <= k < l < |s.elements| ==> Apart(s.elements[k], s.elements[l]))
  }

  /** Allocations are dropped in order, each at most once, and those not dropped are live. */
  ghost predicate DropsOk(s: ArenaState) {
    var log := s.dropped + Ids(s.elements);
    |log| == s.issued && forall k :: 0 <= k < |log| ==> log[k] == k
  }

  ghost predicate Inv(s: ArenaState) {
    ChunksOk(s) && ElementsOk(s) && DropsOk(s)
  }

  lemma InitialInv(chunkSize: nat, site: nat)
    requires chunkSize > 0 && site > 0
    ensures Inv(InitialState(chunkSize, site))
  {
  }

  /** An element above the offset of its chunk can be added. */
  lemma PlaceKeepsInv(s: ArenaState, e: Element, s': ArenaState)
    requires Inv(s) && s.current <= e.chunk <= s.current + 1 && e.chunk < |s.chunks|
    requires e.id == s.issued && e.addr % e.layout.align == 0
    requires s.chunks[e.chunk].offset <= e.addr && e.End() <= s.chunks[e.chunk].end
    requires s' == s.(chunks := s.chunks[e.chunk := s.chunks[e.chunk].(offset := e.End())],
                      elements := s.elements + [e], current := e.chunk, issued := s.issued + 1)
    ensures Inv(s')
  {
    forall k | 0 <= k < |s.elements| ensures Apart(s.elements[k], e) {
      var other := s.elements[k];
      assert s.chunks[other.chunk].start <= other.addr && other.End() <= s.chunks[other.chunk].offset;
    }
    assert s'.dropped + Ids(s'.elements) == s.dropped + Ids(s.elements) + [s.issued];
  }

  lemma TakeKeepsInv(s: ArenaState, index: nat, layout: Layout, s': ArenaState)
    requires Inv(s) && s.current <= index <= s.current + 1 && index < |s.chunks| && s' == s.Take(index, layout).0
    ensures Inv(s')
  {
    match s.chunks[index].Allocate(layout)
    case None =>
    case Some((_, addr)) =>
      AlignOffsetIsLeast(s.chunks[index].offset, layout.align);
      PlaceKeepsInv(s, Element(s.issued, addr, layout, index), s');
  }

  lemma AllocKeepsInv(s: ArenaState, layout: Layout, site: nat, s': ArenaState)
    requires Inv(s) && IsFresh(s, site) && s' == s.Alloc(layout, site).0
    ensures Inv(s')
  {
    if s.chunks[s.current].Allocate(layout).Some? {
      TakeKeepsInv(s, s.current, layout, s');
    } else if s.current + 1 < |s.chunks| {
      TakeKeepsInv(s, s.current + 1, layout, s');
    } else {
      PushKeepsInv(s, site);
      TakeKeepsInv(s.Push(site), s.current + 1, layout, s');
    }
  }

  lemma PushKeepsInv(s: ArenaState, site: nat)
    requires Inv(s) && IsFresh(s, site)
    ensures Inv(s.Push(site))
  {
    var s' := s.Push(site);
    assert forall i :: 0 <= i < |s.chunks| ==> s'.chunks[i] == s.chunks[i];
  }

  lemma ClearKeepsInv(s: ArenaState)
    requires Inv(s)
    ensures Inv(s.Clear())
    ensures s.Clear().current == 0 && |s.Clear().chunks| == |s.chunks| && s.Clear().elements == []
    ensures forall i :: 0 <= i < |s.chunks| ==> s.Clear().chunks[i] == s.chunks[i].(offset := s.chunks[i].start)
  {
    assert s.Clear().dropped + Ids(s.Clear().elements) == s.dropped + Ids(s.elements);
  }

  // ----- Runs -----

  /** A handle: where it points, the cell it carries, and the allocation it stems from. */
  datatype Handle = Handle(addr: nat, token: nat, element: Element)

  /** An arena and all handles made so far, in order. A mapped handle takes the place of the one it came from,
      which `map` consumes. */
  datatype Session = Session(arena: ArenaState, handles: seq<Handle>)

  datatype Op = AllocOp(layout: Layout, site: nat) | MapOp(handle: nat, to: nat) | ClearOp

  /** A handle carries the cell that was current when it was made, and passes while that cell is current. */
  predicate Validates(s: ArenaState, token: nat) {
    s.token == token
  }

  function Step(s: Session, op: Op): (s': Session)
    requires s.arena.current < |s.arena.chunks|
    ensures s'.arena.current < |s'.arena.chunks|
  {
    match op
    case AllocOp(layout, site) =>
      var (arena, e) := s.arena.Alloc(layout, site);
      Session(arena, if e.Some? then s.handles + [Handle(e.value.addr, arena.token, e.value)] else s.handles)
    case MapOp(k, to) =>
      if k < |s.handles| && Validates(s.arena, s.handles[k].token) then s.(handles := s.handles[k := s.handles[k].(addr := to)])
      else s
    case ClearOp => s.(arena := s.arena.Clear())
  }

  function Run(s: Session, ops: seq<Op>): (s': Session)
    requires s.arena.current < |s.arena.chunks|
    ensures s'.arena.current < |s'.arena.chunks|
    decreases |ops|
  {
    if ops == [] then s else Run(Step(s, ops[0]), ops[1..])
  }

  function Start(chunkSize: nat, site: nat): Session {
    Session(InitialState(chunkSize, site), [])
  }

  /** Along the run the system allocator keeps its promise. */
  ghost predicate Legal(s: Session, ops: seq<Op>)
    requires s.arena.current < |s.arena.chunks|
    decreases |ops|
  {
    ops == [] || ((ops[0].AllocOp? ==> IsFresh(s.arena, ops[0].site)) && Legal(Step(s, ops[0]), ops[1..]))
  }

  /** A handle passes as long as its allocation has not been dropped, and then that allocation is live. */
  ghost predicate HandleOk(s: ArenaState, h: Handle) {
    && h.token <= s.token && h.element.id < s.issued
    && (Validates(s, h.token) <==> |s.dropped| <= h.element.id)
    && (Validates(s, h.token) ==> h.element in s.elements)
  }

  ghost predicate SessionInv(s: Session) {
    Inv(s.arena) && forall k :: 0 <= k < |s.handles| ==> HandleOk(s.arena, s.handles[k])
  }

  lemma StepKeepsInv(s: Session, op: Op)
    requires SessionInv(s) && (op.AllocOp? ==> IsFresh(s.arena, op.site))
    ensures SessionInv(Step(s, op))
  {
    match op
    case AllocOp(layout, site) =>
      AllocKeepsInv(s.arena, layout, site, Step(s, op).arena);
      AllocKeepsHandles(s, layout, site);
    case MapOp(_, _) =>
    case ClearOp =>
      ClearKeepsInv(s.arena);
      ClearKeepsHandles(s);
  }

  lemma AllocKeepsHandles(s: Session, layout: Layout, site: nat)
    requires SessionInv(s)
    ensures var s' := Step(s, AllocOp(layout, site)); forall k :: 0 <= k < |s'.handles| ==> HandleOk(s'.arena, s'.handles[k])
  {
    var s' := Step(s, AllocOp(layout, site));
    assert s'.arena.token == s.arena.token && s'.arena.dropped == s.arena.dropped && s.arena.elements <= s'.arena.elements;
    assert |s.arena.dropped| <= s.arena.issued <= s'.arena.issued;
  }

  lemma ClearKeepsHandles(s: Session)
    requires SessionInv(s)
    ensures var s' := Step(s, ClearOp); forall k :: 0 <= k < |s'.handles| ==> HandleOk(s'.arena, s'.handles[k])
  {
    assert |s.arena.Clear().dropped| == s.arena.issued;
  }

  lemma {:induction false} RunKeepsInv(s: Session, ops: seq<Op>)
    requires SessionInv(s) && Legal(s, ops)
    ensures SessionInv(Run(s, ops))
    decreases |ops|
  {
    if ops != [] {
      StepKeepsInv(s, ops[0]);
      RunKeepsInv(Step(s, ops[0]), ops[1..]);
    }
  }

  /** Safety of every reachable state: live elements are aligned, lie below the offset of one chunk, and
      are pairwise disjoint; chunks past the current one are empty; drops happened in order, once each; and
      every handle passes exactly if the allocation it stems from has not been dropped. */
  lemma ReachableIsSafe(chunkSize: nat, site: nat, ops: seq<Op>)
    requires chunkSize > 0 && site > 0 && Legal(Start(chunkSize, site), ops)
    ensures SessionInv(Run(Start(chunkSize, site), ops))
  {
    InitialInv(chunkSize, site);
    RunKeepsInv(Start(chunkSize, site), ops);
  }

  // ----- Handles and drops -----

  /** A handle as `alloc` makes it: to the object itself, under the current cell. */
  ghost predicate IsNewHandle(s: ArenaState, h: Handle) {
    h.token == s.token && h.addr == h.element.addr
  }

  lemma StepAndHandles(s: Session, op: Op)
    ensures s.arena.current < |s.arena.chunks| ==>
      var s' := Step(s, op);
      && s'.arena.token == (if op == ClearOp then s.arena.token + 1 else s.arena.token)
      && |s.handles| <= |s'.handles| <= |s.handles| + 1
      && (|s'.handles| > |s.handles| ==> op.AllocOp? && IsNewHandle(s'.arena, s'.handles[|s.handles|]))
      && forall k :: 0 <= k < |s.handles| ==>
           s'.handles[k].token == s.handles[k].token && s'.handles[k].element == s.handles[k].element
  {
  }

  /** What runs do to the handles there are: a handle keeps its cell and its allocation, mapped or not, and a clear
      moves on to another cell. */
  lemma {:induction false} RunAndHandles(s: Session, ops: seq<Op>)
    requires s.arena.current < |s.arena.chunks|
    ensures var end := Run(s, ops);
      && s.arena.token <= end.arena.token && (end.arena.token == s.arena.token <==> ClearOp !in ops)
      && |s.handles| <= |end.handles|
      && forall k :: 0 <= k < |s.handles| ==>
           end.handles[k].token == s.handles[k].token && end.handles[k].element == s.handles[k].element
    decreases |ops|
  {
    if ops != [] {
      StepAndHandles(s, ops[0]);
      RunAndHandles(Step(s, ops[0]), ops[1..]);
      assert ops == [ops[0]] + ops[1..];
    }
  }

  lemma {:induction false} RunOfConcat(s: Session, a: seq<Op>, b: seq<Op>)
    requires s.arena.current < |s.arena.chunks|
    ensures Run(s, a + b) == Run(Run(s, a), b)
    decreases |a|
  {
    if a == [] {
      assert a + b == b;
    } else {
      assert (a + b)[0] == a[0] && (a + b)[1..] == a[1..] + b;
      RunOfConcat(Step(s, a[0]), a[1..], b);
    }
  }

  /** The operation that made handle `k`. */
  ghost predicate IsMadeBy(s: Session, ops: seq<Op>, k: nat, j: nat)
    requires s.arena.current < |s.arena.chunks|
  {
    && j < |ops| && ops[j].AllocOp?
    && |Run(s, ops[..j]).handles| == k && |Run(s, ops[..j + 1]).handles| == k + 1
  }

  lemma {:induction false} SomeOpMadeIt(s: Session, ops: seq<Op>, k: nat) returns (j: nat)
    requires s.arena.current < |s.arena.chunks| && |s.handles| <= k < |Run(s, ops).handles|
    ensures IsMadeBy(s, ops, k, j)
    decreases |ops|
  {
    var s' := Step(s, ops[0]);
    StepAndHandles(s, ops[0]);
    if |s'.handles| > k {
      j := 0;
      assert ops[..1][1..] == [];
    } else {
      j := SomeOpMadeIt(s', ops[1..], k);
      assert ops[..j + 1][1..] == ops[1..][..j];
      assert ops[..j + 2][1..] == ops[1..][..j + 1];
      j := j + 1;
    }
  }

  /** Every handle of a run, mapped any number of times or not at all, passes if and only if no clear has happened
      since the allocation it stems from. While it passes, that allocation is live, where it was, and disjoint
      from every later one; once it fails, the allocation has been dropped. */
  lemma EveryHandlePassesUntilClear(chunkSize: nat, site: nat, ops: seq<Op>, k: nat) returns (j: nat)
    requires chunkSize > 0 && site > 0 && Legal(Start(chunkSize, site), ops)
    requires k < |Run(Start(chunkSize, site), ops).handles|
    ensures IsMadeBy(Start(chunkSize, site), ops, k, j)
    ensures var end := Run(Start(chunkSize, site), ops); var h := end.handles[k];
      && h.element == Run(Start(chunkSize, site), ops[..j + 1]).handles[k].element
      && h.element.addr == Run(Start(chunkSize, site), ops[..j + 1]).handles[k].addr
      && (Validates(end.arena, h.token) <==> ClearOp !in ops[j + 1..])
      && if Validates(end.arena, h.token) then
           h.element in end.arena.elements && forall e :: e in end.arena.elements && e.id > h.element.id ==> Apart(h.element, e)
         else h.element.id in end.arena.dropped
  {
    hide Step, ChunksOk, ElementsOk, DropsOk;
    var start := Start(chunkSize, site);
    var end := Run(start, ops);
    ReachableIsSafe(chunkSize, site, ops);
    j := SomeOpMadeIt(start, ops, k);
    var before, after := ops[..j + 1], ops[j + 1..];
    assert ops == before + after;
    RunOfConcat(start, before, after);
    RunAndHandles(Run(start, before), after);
    NewHandleIsCurrent(start, ops[..j], ops[j]);
    assert before == ops[..j] + [ops[j]];
    HandleMeans(end, end.handles[k]);
  }

  lemma NewHandleIsCurrent(s: Session, ops: seq<Op>, op: Op)
    requires s.arena.current < |s.arena.chunks|
    ensures var was, now := Run(s, ops).handles, Run(s, ops + [op]);
            |now.handles| > |was| ==> IsNewHandle(now.arena, now.handles[|was|])
  {
    hide Step, Run;
    RunOfConcat(s, ops, [op]);
    RunOfOne(Run(s, ops), op);
    StepAndHandles(Run(s, ops), op);
  }

  lemma RunOfOne(s: Session, op: Op)
    requires s.arena.current < |s.arena.chunks|
    ensures Run(s, [op]) == Step(s, op)
  {
    hide Step;
  }

  lemma HandleMeans(s: Session, h: Handle)
    requires SessionInv(s) && HandleOk(s.arena, h)
    ensures if Validates(s.arena, h.token) then forall e :: e in s.arena.elements && e.id > h.element.id ==> Apart(h.element, e)
            else h.element.id in s.arena.dropped
  {
    var a := s.arena;
    var log := a.dropped + Ids(a.elements);
    if Validates(a, h.token) {
      var i :| 0 <= i < |a.elements| && a.elements[i] == h.element;
      forall e | e in a.elements && e.id > h.element.id ensures Apart(h.element, e) {
        var l :| 0 <= l < |a.elements| && a.elements[l] == e;
        assert i != l;
      }
    } else {
      assert log[h.element.id] == a.dropped[h.element.id];
    }
  }

  /** Dropping the arena clears it one last time. By then every allocation has been dropped exactly once,
      in the order of allocation. */
  lemma DroppedExactlyOnce(chunkSize: nat, site: nat, ops: seq<Op>)
    requires chunkSize > 0 && site > 0 && Legal(Start(chunkSize, site), ops)
    ensures var end := Run(Start(chunkSize, site), ops).arena.Clear();
            end.elements == [] && end.dropped == seq(end.issued, i => i)
  {
    ReachableIsSafe(chunkSize, site, ops);
  }

  // ----- Service -----

  /** A layout that fits a chunk wherever the chunk may lie is served, with at most one new chunk. */
  lemma SmallLayoutsAreServed(s: ArenaState, layout: Layout, site: nat)
    requires Inv(s) && layout.size + layout.align - 1 <= s.chunkSize
    ensures s.Alloc(layout, site).1.Some? && |s.Alloc(layout, site).0.chunks| <= |s.chunks| + 1
  {
    if s.chunks[s.current].Allocate(layout).None? {
      var next := if s.current + 1 < |s.chunks| then s.chunks[s.current + 1] else NewChunk(site, s.chunkSize);
      AlignOffsetIsLeast(next.offset, layout.align);
    }
  }

  /** The bound cannot be improved: a larger layout fails in some new chunk. */
  lemma ServiceBoundIsTight(layout: Layout, chunkSize: nat)
    ensures (forall start: nat :: NewChunk(start, chunkSize).Allocate(layout).Some?)
       <==> layout.size + layout.align - 1 <= chunkSize
  {
    var worst := layout.align + 1;
    forall start: nat ensures NewChunk(start, chunkSize).Allocate(layout).Some? || layout.size + layout.align - 1 > chunkSize {
      AlignOffsetIsLeast(start, layout.align);
    }
    AlignOffsetIsLeast(worst, layout.align);
    WorstStart(layout.align);
    assert NewChunk(worst, chunkSize).Allocate(layout).Some? ==> layout.size + layout.align - 1 <= chunkSize;
  }

  lemma WorstStart(align: Align)
    ensures AlignOffset(align + 1, align) == align - 1
  {
    AlignOffsetIsLeast(align + 1, align);
    var k := AlignOffset(align + 1, align);
    var p := (align + 1 + k) / align;
    assert align + 1 + k == p * align;
    if p <= 1 {
      ProductsGrow(p, 1, align);
    } else {
      ProductsGrow(2, p, align);
    }
  }

  // What a call of `alloc` comes to, without saying how it looks: the first place there is.

  /** The object can lie at `addr` in the free part of the chunk. */
  ghost predicate IsPlace(c: ChunkState, layout: Layout, addr: nat) {
    c.offset <= addr && addr % layout.align == 0 && addr + layout.size <= c.end
  }

  ghost predicate HasPlace(c: ChunkState, layout: Layout) {
    exists addr :: IsPlace(c, layout, addr)
  }

  ghost predicate IsFirstPlace(c: ChunkState, layout: Layout, addr: nat) {
    IsPlace(c, layout, addr) && forall a :: IsPlace(c, layout, a) ==> addr <= a
  }

  lemma AllocateTakesFirstPlace(c: ChunkState, layout: Layout)
    ensures c.Allocate(layout).Some? <==> HasPlace(c, layout)
    ensures forall c', addr :: c.Allocate(layout) == Some((c', addr)) ==>
              IsFirstPlace(c, layout, addr) && c' == c.(offset := addr + layout.size)
  {
    hide AlignOffset;
    AlignOffsetIsLeast(c.offset, layout.align);
    assert c.Allocate(layout).Some? ==> IsPlace(c, layout, c.offset + AlignOffset(c.offset, layout.align));
  }

  /** The object lies in the first place of the chunk at `index`, or there is none in it and no object. */
  ghost predicate IsPlacedIn(index: nat, s: ArenaState, layout: Layout, s': ArenaState, made: Option<Element>)
    requires index < |s.chunks|
  {
    var c := s.chunks[index];
    match made
    case None => !HasPlace(c, layout) && s' == s.(current := index)
    case Some(e) =>
      && IsFirstPlace(c, layout, e.addr) && e == Element(s.issued, e.addr, layout, index)
      && s' == s.(chunks := s.chunks[index := c.(offset := e.addr + layout.size)],
                  elements := s.elements + [e], current := index, issued := s.issued + 1)
  }

  /** Whatever has a place in the current chunk is put there. Otherwise the arena moves on by one chunk, and owns a
      chunk more only if it stood at its last one. */
  ghost predicate IsAllocation(s: ArenaState, layout: Layout, site: nat, s': ArenaState, made: Option<Element>)
    requires s.current < |s.chunks|
  {
    if HasPlace(s.chunks[s.current], layout) then IsPlacedIn(s.current, s, layout, s', made)
    else if s.current + 1 < |s.chunks| then IsPlacedIn(s.current + 1, s, layout, s', made)
    else
      var grown := s.(chunks := s.chunks + [ChunkState(site, site + s.chunkSize, site)]);
      IsPlacedIn(s.current + 1, grown, layout, s', made)
  }

  lemma TakeIsPlacing(s: ArenaState, index: nat, layout: Layout)
    requires index < |s.chunks|
    ensures IsPlacedIn(index, s, layout, s.Take(index, layout).0, s.Take(index, layout).1)
  {
    hide HasPlace, IsFirstPlace, AlignOffset;
    AllocateTakesFirstPlace(s.chunks[index], layout);
  }

  lemma AllocIsFirstFit(s: ArenaState, layout: Layout, site: nat)
    requires s.current < |s.chunks|
    ensures IsAllocation(s, layout, site, s.Alloc(layout, site).0, s.Alloc(layout, site).1)
  {
    hide HasPlace, IsPlacedIn, ArenaState.Take;
    AllocateTakesFirstPlace(s.chunks[s.current], layout);
    TakeIsPlacing(s, s.current, layout);
    if s.current + 1 < |s.chunks| {
      TakeIsPlacing(s, s.current + 1, layout);
    } else {
      TakeIsPlacing(s.Push(site), s.current + 1, layout);
    }
  }

  // ----- Replay -----

  /** Serve a sequence of layouts; the sites are where new chunks would go. */
  function Serve(s: ArenaState, layouts: seq<Layout>, sites: seq<nat>): (r: (ArenaState, seq<Option<nat>>))
    requires s.current < |s.chunks| && |sites| == |layouts|
    ensures r.0.current < |r.0.chunks|
    decreases |layouts|
  {
    if layouts == [] then (s, [])
    else
      var (s', e) := s.Alloc(layouts[0], sites[0]);
      var (end, addrs) := Serve(s', layouts[1..], sites[1..]);
      (end, [if e.Some? then Some(e.value.addr) else None] + addrs)
  }

  /** Chunks are only ever added, and a chunk keeps its place. */
  lemma {:induction false} ServeKeepsChunks(s: ArenaState, layouts: seq<Layout>, sites: seq<nat>)
    requires s.current < |s.chunks| && |sites| == |layouts|
    ensures |s.chunks| <= |Serve(s, layouts, sites).0.chunks| && Serve(s, layouts, sites).0.chunkSize == s.chunkSize
    ensures forall i :: 0 <= i < |s.chunks| ==> Serve(s, layouts, sites).0.chunks[i].Reset() == s.chunks[i].Reset()
    decreases |layouts|
  {
    if layouts != [] {
      var s' := s.Alloc(layouts[0], sites[0]).0;
      assert forall i :: 0 <= i < |s.chunks| ==> s'.chunks[i].Reset() == s.chunks[i].Reset();
      ServeKeepsChunks(s', layouts[1..], sites[1..]);
    }
  }

  /** `b` stands where `a` stands, and already owns, empty, every chunk that `a` has yet to push. */
  ghost predicate Prepared(a: ArenaState, b: ArenaState, final: seq<ChunkState>) {
    && a.current < |a.chunks| <= |b.chunks| == |final| && a.current == b.current && a.chunkSize == b.chunkSize
    && (forall i :: 0 <= i < |a.chunks| ==> b.chunks[i] == a.chunks[i])
    && (forall i :: |a.chunks| <= i < |final| ==> b.chunks[i] == final[i].Reset())
  }

  lemma PreparedStep(a: ArenaState, b: ArenaState, layout: Layout, site: nat, site': nat, final: seq<ChunkState>)
    requires Prepared(a, b, final)
    requires var a' := a.Alloc(layout, site).0;
             |a'.chunks| <= |final| && forall i :: 0 <= i < |a'.chunks| ==> final[i].Reset() == a'.chunks[i].Reset()
    ensures var (a', ea) := a.Alloc(layout, site); var (b', eb) := b.Alloc(layout, site');
            && Prepared(a', b', final)
            && (ea.Some? <==> eb.Some?) && (ea.Some? ==> ea.value.addr == eb.value.addr)
  {
  }

  lemma {:induction false} ReplayFrom(a: ArenaState, b: ArenaState, layouts: seq<Layout>, sites: seq<nat>, sites': seq<nat>)
    requires a.current < |a.chunks| && b.current < |b.chunks| && |sites| == |sites'| == |layouts|
    requires Prepared(a, b, Serve(a, layouts, sites).0.chunks)
    ensures Serve(b, layouts, sites').1 == Serve(a, layouts, sites).1
    ensures |Serve(b, layouts, sites').0.chunks| == |Serve(a, layouts, sites).0.chunks|
    decreases |layouts|
  {
    if layouts != [] {
      var a' := a.Alloc(layouts[0], sites[0]).0;
      var b' := b.Alloc(layouts[0], sites'[0]).0;
      ServeKeepsChunks(a', layouts[1..], sites[1..]);
      PreparedStep(a, b, layouts[0], sites[0], sites'[0], Serve(a, layouts, sites).0.chunks);
      ReplayFrom(a', b', layouts[1..], sites[1..], sites'[1..]);
    }
  }

  /** A frame drawn into a cleared arena and drawn again after the next clear gets the same addresses, and
      the second time the arena does not grow, wherever the system would put new chunks. */
  lemma ReplayNeedsNothingNew(s: ArenaState, layouts: seq<Layout>, sites: seq<nat>, sites': seq<nat>)
    requires Inv(s) && |sites| == |sites'| == |layouts|
    ensures var start := s.Clear();
            var first := Serve(start, layouts, sites);
            var second := Serve(first.0.Clear(), layouts, sites');
            second.1 == first.1 && second.0.Capacity() == first.0.Capacity()
  {
    var start := s.Clear();
    ClearKeepsInv(s);
    var first := Serve(start, layouts, sites);
    var again := first.0.Clear();
    ServeKeepsChunks(start, layouts, sites);
    ServePastIsEmpty(start, layouts, sites);
    assert Prepared(start, again, first.0.chunks);
    ReplayFrom(start, again, layouts, sites, sites');
    ServeKeepsChunks(again, layouts, sites');
  }

  lemma {:induction false} ServePastIsEmpty(s: ArenaState, layouts: seq<Layout>, sites: seq<nat>)
    requires s.current < |s.chunks| && |sites| == |layouts|
    requires forall i :: s.current < i < |s.chunks| ==> s.chunks[i].offset == s.chunks[i].start
    ensures var end := Serve(s, layouts, sites).0;
            forall i :: end.current < i < |end.chunks| ==> end.chunks[i].offset == end.chunks[i].start
    decreases |layouts|
  {
    if layouts != [] {
      var s' := s.Alloc(layouts[0], sites[0]).0;
      assert forall i :: s'.current < i < |s'.chunks| ==> s'.chunks[i].offset == s'.chunks[i].start;
      ServePastIsEmpty(s', layouts[1..], sites[1..]);
      assert Serve(s, layouts, sites).0 == Serve(s', layouts[1..], sites[1..]).0;
    }
  }

  // ----- The arena itself -----

  class Chunk {
    const start: nat
    const end: nat
    var offset: nat

    function State(): ChunkState
      reads this
    {
      ChunkState(start, end, offset)
    }

    constructor (start: nat, chunkSize: nat)
      ensures State() == NewChunk(start, chunkSize)
    {
      this.start, end, offset := start, start + chunkSize, start;
    }

    method Allocate(layout: Layout) returns (addr: Option<nat>)
      modifies this
      ensures match old(State()).Allocate(layout)
              case None => addr == None && State() == old(State())
              case Some((chunk, a)) => addr == Some(a) && State() == chunk
    {
      var aligned := offset + AlignOffset(offset, layout.align);
      var next := aligned + layout.size;
      if next <= end {
        offset := next;
        addr := Some(aligned);
      } else {
        addr := None;
      }
    }

    method Reset()
      modifies this
      ensures State() == old(State()).Reset()
    {
      offset := start;
    }
  }

  /** The shared validity cell of all handles made between two clears. */
  class Token {
    var live: bool

    constructor ()
      ensures live
    {
      live := true;
    }
  }

  datatype ArenaBox = ArenaBox(addr: nat, valid: Token)

  class Arena {
    var chunks: seq<Chunk>
    var elements: seq<nat>         // the addresses of the objects to drop
    var valid: Token
    var current: nat
    const chunkSize: nat
    ghost var tokens: seq<Token>   // every cell so far, the current one last
    ghost var records: seq<Element>
    ghost var issued: nat
    ghost var dropped: seq<nat>

    ghost predicate Valid()
      reads this, chunks, tokens
    {
      && current < |chunks| && tokens != [] && tokens[|tokens| - 1] == valid
      && |records| == |elements| && (forall k :: 0 <= k < |records| ==> records[k].addr == elements[k])
      && (forall i, j :: 0 <= i < j < |chunks| ==> chunks[i] != chunks[j])
      && (forall i, j :: 0 <= i < j < |tokens| ==> tokens[i] != tokens[j])
      && (forall i :: 0 <= i < |tokens| ==> (tokens[i].live <==> i == |tokens| - 1))
    }

    ghost function State(): ArenaState
      requires tokens != []
      reads this, chunks
    {
      ArenaState(seq(|chunks|, i requires 0 <= i < |chunks| reads this, chunks => chunks[i].State()),
                 records, |tokens| - 1, current, chunkSize, issued, dropped)
    }

    constructor (chunkSize: nat, site: nat)
      ensures Valid() && fresh(chunks) && fresh(tokens)
      ensures State() == InitialState(chunkSize, site)
    {
      var chunk := new Chunk(site, chunkSize);
      var token := new Token();
      chunks, elements, current, this.chunkSize := [chunk], [], 0, chunkSize;
      valid, tokens := token, [token];
      records, issued, dropped := [], 0, [];
    }

    /** Allocate in one chunk, which becomes the current one, and record the object. */
    method TakeFrom(index: nat, layout: Layout) returns (box: Option<ArenaBox>)
      requires Valid() && index < |chunks|
      modifies this, chunks[index]
      ensures Valid() && chunks == old(chunks) && tokens == old(tokens)
      ensures State() == old(State()).Take(index, layout).0
      ensures match old(State()).Take(index, layout).1
              case None => box == None
              case Some(e) => box == Some(ArenaBox(e.addr, valid))
    {
      current := index;
      var addr := chunks[index].Allocate(layout);
      if addr.None? {
        return None;
      }
      elements := elements + [addr.value];
      records := records + [Element(issued, addr.value, layout, current)];
      issued := issued + 1;
      box := Some(ArenaBox(addr.value, valid));
    }

    method PushChunk(site: nat)
      requires Valid()
      modifies this`chunks
      ensures Valid() && State() == old(State()).Push(site)
      ensures |chunks| == |old(chunks)| + 1 && chunks[..|old(chunks)|] == old(chunks) && fresh(chunks[|old(chunks)|])
    {
      var chunk := new Chunk(site, chunkSize);
      chunks := chunks + [chunk];
    }

    /** `alloc`, up to the call that fills the object in. No box means the source panics. */
    method Alloc(layout: Layout, site: nat) returns (box: Option<ArenaBox>)
      requires Valid()
      modifies this, chunks
      ensures Valid() && tokens == old(tokens) && fresh(set c | c in chunks && c !in old(chunks))
      ensures State() == old(State()).Alloc(layout, site).0
      ensures match old(State()).Alloc(layout, site).1
              case None => box == None
              case Some(e) => box == Some(ArenaBox(e.addr, valid))
      ensures IsAllocation(old(State()), layout, site, State(), old(State()).Alloc(layout, site).1)
    {
      hide IsAllocation;
      AllocIsFirstFit(State(), layout, site);
      box := TakeFrom(current, layout);
      if box.None? {
        if current + 1 >= |chunks| {
          PushChunk(site);
        }
        box := TakeFrom(current + 1, layout);
      }
    }

    method Clear()
      requires Valid()
      modifies this, chunks, valid
      ensures Valid() && chunks == old(chunks) && fresh(valid) && tokens == old(tokens) + [valid]
      ensures State() == old(State()).Clear()
    {
      valid.live := false;
      valid := new Token();
      tokens := tokens + [valid];
      dropped := dropped + Ids(records);
      elements, records := [], [];
      for i := 0 to current + 1
        invariant chunks == old(chunks) && current == old(current) && Valid()
        invariant records == [] && dropped == old(dropped + Ids(records)) && issued == old(issued)
        invariant fresh(valid) && tokens == old(tokens) + [valid]
        invariant forall k :: 0 <= k < |chunks| ==>
                    chunks[k].State() == if k < i then old(chunks[k].State()).Reset() else old(chunks[k].State())
      {
        chunks[i].Reset();
      }
      current := 0;
    }

    /** The box that a handle of the model stands for. */
    ghost predicate IsBoxOf(box: ArenaBox, h: Handle)
      reads this
    {
      h.token < |tokens| && box == ArenaBox(h.addr, tokens[h.token])
    }

    /** `map` borrows the object, which the cell must allow, and passes the same cell on: the mapped box is that of the
        k-th handle after the step of the model, and there is none exactly if the source panics. */
    method Map(box: ArenaBox, project: nat -> nat, ghost handles: seq<Handle>, ghost k: nat)
      returns (mapped: Option<ArenaBox>)
      requires Valid() && k < |handles| && IsBoxOf(box, handles[k])
      ensures mapped.Some? <==> Validates(State(), handles[k].token)
      ensures Step(Session(State(), handles), MapOp(k, project(box.addr))).arena == State()
      ensures var handles' := Step(Session(State(), handles), MapOp(k, project(box.addr))).handles;
              if mapped.Some? then IsBoxOf(mapped.value, handles'[k]) && handles' == handles[k := handles'[k]]
              else handles' == handles
    {
      if !box.valid.live {
        return None;
      }
      mapped := Some(ArenaBox(project(box.addr), box.valid));
    }

    /** `validate`: a box passes exactly if its cell is the current one. */
    method Validate(box: ArenaBox) returns (passes: bool)
      requires Valid() && box.valid in tokens
      ensures passes <==> exists i :: 0 <= i < |tokens| && box.valid == tokens[i] && Validates(State(), i)
    {
      passes := box.valid.live;
    }
  }
}
