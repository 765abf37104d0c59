/**
 The table of JavaScript objects that wasm code refers to by small integers.

 Free cells of the table hold the index of the next free cell, so the free list
 lives inside the table itself, and nothing in a cell tells a link from a stored
 number: which cells are free is known only through the chain that starts at
 `next`.  The lemmas show that the chain and the live handles always partition
 the cells above the reserved ones, so that the table refines a finite map.
 */
module HandleSlab {
  import opened Sequences

  datatype JsValue = Undefined | Null | Bool(b: bool) | Number(n: int) | Other(id: nat)

  /** Handles below this one denote constants and are never recycled. */
  const RESERVED: nat := 132

  /** What the reserved cells hold. */
  function Constant(h: nat): JsValue
    requires h < RESERVED
  {
    if h < 129 then Undefined else if h == 129 then Null else Bool(h == 130)
  }

  /** The two module-level variables of the source. */
  datatype Slab = Slab(heap: seq<JsValue>, next: nat)

  /** The first free cell, if there is one, holds an index. */
  predicate CanAllocate(s: Slab) {
    s.next < |s.heap| ==> s.heap[s.next].Number? && s.heap[s.next].n >= 0
  }

  function ValueAt(s: Slab, idx: nat): JsValue {
    if idx < |s.heap| then s.heap[idx] else Undefined
  }

  function Dropped(s: Slab, idx: nat): Slab
    requires idx < |s.heap|
  {
    if idx < RESERVED then s else Slab(s.heap[idx := Number(s.next)], idx)
  }

  function Added(s: Slab, obj: JsValue): (Slab, nat)
    requires s.next <= |s.heap| && CanAllocate(s)
  {
    var heap := if s.next == |s.heap| then s.heap + [Number(|s.heap| + 1)] else s.heap;
    (Slab(heap[s.next := obj], heap[s.next].n), s.next)
  }

  // ---------------------------------------------------------------------------
  // The invariant

  /** The i-th cell of the free list; the one after the last is the end of the table. */
  function Link(free: seq<nat>, i: nat, end: nat): nat {
    if i < |free| then free[i] else end
  }

  /** `free` is the chain of cells that starts at `s.next`; it ends at the table's length. */
  ghost predicate Chained(s: Slab, free: seq<nat>) {
    && s.next == Link(free, 0, |s.heap|)
    && (forall i :: 0 <= i < |free| ==> RESERVED <= free[i] < |s.heap|)
    && (forall i {:trigger s.heap[free[i]]} :: 0 <= i < |free| ==>
          s.heap[free[i]] == Number(Link(free, i + 1, |s.heap|)))
    && NoDuplicates(free)
  }

  /** A reserved cell holds its constant; any other cell is either free or holds the object of a
      live handle. */
  ghost predicate Consistent(s: Slab, live: map<nat, JsValue>, free: seq<nat>, h: nat) {
    && ( h < RESERVED && h < |s.heap| ==> s.heap[h] == Constant(h))
    && (h in live ==> h < |s.heap| && s.heap[h] == live[h])
    && (RESERVED <= h < |s.heap| ==> (h in live <==> h !in free))
  }

  ghost predicate Inv(s: Slab, live: map<nat, JsValue>, free: seq<nat>) {
    && RESERVED <= |s.heap|
    && Chained(s, free)
    && (forall h :: h in live ==> RESERVED <= h < |s.heap|)
    && (forall h {:trigger Consistent(s, live, free, h)} :: Consistent(s, live, free, h))
    && |s.heap| == RESERVED + |live| + |free|
  }

  function Start(): Slab {
    Slab(seq(RESERVED, h requires 0 <= h < RESERVED => Constant(h)), RESERVED)
  }

  lemma StartIsSlab()
    ensures Inv(Start(), map[], [])
  {
    var live: map<nat, JsValue>, free: seq<nat> := map[], [];
    forall h
      ensures Consistent(Start(), live, free, h)
    {
    }
  }

  /** A full table grows by the cell it hands out. */
  lemma AddGrows(s: Slab, live: map<nat, JsValue>, obj: JsValue)
    requires Inv(s, live, [])
    ensures s.next == |s.heap| && |s.heap| !in live
    ensures Inv(Added(s, obj).0, live[s.next := obj], [])
    ensures |Added(s, obj).0.heap| == |s.heap| + 1
  {
    var s' := Added(s, obj).0;
    assert s'.heap == s.heap + [obj];
    assert Consistent(s, live, [], s.next);
    var live', free := live[s.next := obj], [];
    forall h
      ensures Consistent(s', live', free, h)
    {
      assert Consistent(s, live, free, h);
    }
  }

  /** Otherwise the head of the free list is handed out and the table keeps its length. */
  lemma AddReuses(s: Slab, live: map<nat, JsValue>, free: seq<nat>, obj: JsValue)
    requires Inv(s, live, free) && free != []
    ensures s.next < |s.heap| && CanAllocate(s) && RESERVED <= s.next && s.next !in live
    ensures Inv(Added(s, obj).0, live[s.next := obj], free[1..])
    ensures |Added(s, obj).0.heap| == |s.heap|
  {
    var h, free' := s.next, free[1..];
    assert free == [h] + free';
    assert h in free && Consistent(s, live, free, h);
    assert s.heap[free[0]] == Number(Link(free, 1, |s.heap|));
    var s' := Added(s, obj).0;
    assert s'.heap == s.heap[h := obj];
    assert h !in free' by {
      forall i | 0 <= i < |free'| ensures free'[i] != h { assert free'[i] == free[i + 1]; }
    }
    assert Chained(s', free') by {
      forall i | 0 <= i < |free'|
        ensures free'[i] == free[i + 1] && s'.heap[free'[i]] == Number(Link(free', i + 1, |s.heap|))
      {
        assert s.heap[free[i + 1]] == Number(Link(free, i + 2, |s.heap|));
      }
    }
    var live' := live[h := obj];
    forall x
      ensures Consistent(s', live', free', x)
    {
      assert Consistent(s, live, free, x);
    }
  }

  /** Adding returns an unused handle, binds it and leaves every other handle alone;
      the table grows only when no cell is free. */
  lemma AddRefinesMap(s: Slab, live: map<nat, JsValue>, free: seq<nat>, obj: JsValue)
    returns (free': seq<nat>)
    requires Inv(s, live, free)
    ensures s.next <= |s.heap| && CanAllocate(s)
    ensures RESERVED <= s.next && s.next !in live
    ensures Added(s, obj).1 == s.next
    ensures Inv(Added(s, obj).0, live[s.next := obj], free')
    ensures |Added(s, obj).0.heap| == (if free == [] then |s.heap| + 1 else |s.heap|)
  {
    if free == [] {
      free' := [];
      AddGrows(s, live, obj);
    } else {
      free' := free[1..];
      AddReuses(s, live, free, obj);
    }
  }

  /** Dropping a live handle unbinds exactly that handle and never changes the table's length. */
  lemma DropRefinesMap(s: Slab, live: map<nat, JsValue>, free: seq<nat>, h: nat)
    returns (free': seq<nat>)
    requires Inv(s, live, free)
    requires h < RESERVED || h in live
    ensures h < |s.heap|
    ensures var s' := Dropped(s, h);
      && Inv(s', live - {h}, free')
      && |s'.heap| == |s.heap|
  {
    if h < RESERVED {
      free' := free;
      assert live - {h} == live;
    } else {
      free' := [h] + free;
      var s' := Dropped(s, h);
      assert Consistent(s, live, free, h);
      forall x
        ensures Consistent(s', live - {h}, free', x)
      {
        assert Consistent(s, live, free, x);
      }
      forall i | 0 <= i < |free'|
        ensures s'.heap[free'[i]] == Number(Link(free', i + 1, |s'.heap|))
      {
        if i > 0 { assert free'[i] == free[i - 1] && free[i - 1] in free; }
      }
      assert (live - {h}).Keys == live.Keys - {h};
      assert |live.Keys - {h}| == |live| - 1;
    }
  }

  /** A handle reads back what was stored under it, or the constant it denotes. */
  lemma GetRefinesMap(s: Slab, live: map<nat, JsValue>, free: seq<nat>, h: nat)
    requires Inv(s, live, free)
    requires h < RESERVED || h in live
    ensures ValueAt(s, h) == Lookup(live, h)
    ensures h < 129 ==> ValueAt(s, h) == Undefined
    ensures h == 129 ==> ValueAt(s, h) == Null
    ensures h == 130 ==> ValueAt(s, h) == Bool(true)
    ensures h == 131 ==> ValueAt(s, h) == Bool(false)
    ensures 132 <= h ==> h in live && ValueAt(s, h) == live[h]
  {
    assert Consistent(s, live, free, h);
  }

  function Lookup(live: map<nat, JsValue>, h: nat): JsValue
    requires h < RESERVED || h in live
  {
    if h < RESERVED then Constant(h) else live[h]
  }

  /** Following the chain one way only: any free list of the table after `h`, itself a
      free cell, was dropped again repeats the old free list shifted by one. */
  lemma {:induction false} ChainFollowed(s: Slab, free: seq<nat>, h: nat, free': seq<nat>, k: nat)
    requires RESERVED <= h < |s.heap|
    requires Chained(s, free) && Chained(Dropped(s, h), free')
    requires k < |free| && forall i :: 0 <= i < k ==> free[i] != h
    ensures k + 1 < |free'| && free'[k + 1] == free[k]
  {
    if k > 0 {
      ChainFollowed(s, free, h, free', k - 1);
      assert free'[k] == free[k - 1];
      assert Dropped(s, h).heap[free'[k]] == Number(Link(free', k + 1, |s.heap|));
    } else {
      assert free'[0] == h;
      assert Dropped(s, h).heap[free'[0]] == Number(Link(free', 1, |s.heap|));
    }
  }

  /** Dropping keeps the invariant exactly for live handles: dropping a free cell again
      bends the free list into a cycle, which no list without duplicates describes. */
  lemma DropIsSafeIffLive(s: Slab, live: map<nat, JsValue>, free: seq<nat>, h: nat)
    requires Inv(s, live, free)
    requires RESERVED <= h < |s.heap|
    ensures (exists free' :: Inv(Dropped(s, h), live - {h}, free')) <==> h in live
  {
    assert Consistent(s, live, free, h);
    if h in live {
      var free' := DropRefinesMap(s, live, free, h);
    } else {
      forall free' | Inv(Dropped(s, h), live - {h}, free')
        ensures false
      {
        var k := FirstIndex(free, h);
        ChainFollowed(s, free, h, free', k);
      }
    }
  }

  lemma FirstIndex(xs: seq<nat>, x: nat) returns (k: nat)
    requires x in xs
    ensures k < |xs| && xs[k] == x && forall i :: 0 <= i < k ==> xs[i] != x
  {
    k := 0;
    while xs[k] != x
      invariant k < |xs| && x in xs[k..]
      invariant forall i :: 0 <= i < k ==> xs[i] != x
      decreases |xs| - k
    {
      assert xs[k..] == [xs[k]] + xs[k + 1..];
      k := k + 1;
    }
  }

  /** The handles that the following additions get, up to the first that the table cannot serve. */
  function HandedOut(s: Slab, objs: seq<JsValue>): seq<nat>
    decreases |objs|
  {
    if objs == [] then []
    else
      [s.next] +
      (if s.next <= |s.heap| && CanAllocate(s) then HandedOut(Added(s, objs[0]).0, objs[1..]) else [])
  }

  /** Additions follow the links; the last cell reached may be one already handed out. */
  lemma {:induction false} LinksFollowed(s: Slab, chain: seq<nat>, objs: seq<JsValue>)
    requires |chain| == |objs| > 0 && s.next == chain[0]
    requires NoDuplicates(chain[..|chain| - 1])
    requires forall i :: 0 <= i < |chain| - 1 ==>
      chain[i] < |s.heap| && s.heap[chain[i]] == Number(chain[i + 1])
    ensures HandedOut(s, objs) == chain
    decreases |objs|
  {
    if |chain| > 1 {
      assert s.heap[chain[0]] == Number(chain[1]);
      var s' := Added(s, objs[0]).0;
      var rest := chain[1..];
      forall i | 0 <= i < |rest| - 1
        ensures rest[i] < |s'.heap| && s'.heap[rest[i]] == Number(rest[i + 1])
      {
        assert chain[..|chain| - 1][0] != chain[..|chain| - 1][i + 1];
      }
      assert rest[..|rest| - 1] == chain[..|chain| - 1][1..];
      LinksFollowed(s', rest, objs[1..]);
    } else {
      assert HandedOut(Slab([], 0), objs[1..]) == [];
    }
  }

  /** The k-th free cell dropped again is handed out at once, then the free cells before it
      in their order, and then the same cell a second time. */
  lemma SecondDropHandsOutTwice(s: Slab, live: map<nat, JsValue>, free: seq<nat>, k: nat, objs: seq<JsValue>)
    requires Inv(s, live, free) && k < |free| && |objs| == k + 2
    ensures free[k] < |s.heap|
    ensures HandedOut(Dropped(s, free[k]), objs) == [free[k]] + free[..k + 1]
  {
    var h := free[k];
    var s' := Dropped(s, h);
    var chain := [h] + free[..k + 1];
    forall i | 0 <= i < |chain| - 1
      ensures chain[i] < |s'.heap| && s'.heap[chain[i]] == Number(chain[i + 1])
    {
      if i > 0 {
        assert chain[i] == free[i - 1] != h;
        assert s.heap[free[i - 1]] == Number(Link(free, i, |s.heap|));
      }
    }
    LinksFollowed(s', chain, objs);
  }

  /** It happens: after one addition and two drops of its handle, no free list
      fits any more, and the next two objects share a cell. */
  lemma DroppedTwiceFromStart(a: JsValue, b: JsValue, c: JsValue)
    ensures Added(Start(), a).1 == RESERVED
    ensures var s := Dropped(Dropped(Added(Start(), a).0, RESERVED), RESERVED);
      && HandedOut(s, [b, c]) == [RESERVED, RESERVED]
      && forall free :: !Inv(s, map[], free)
  {
    StartIsSlab();
    AddGrows(Start(), map[], a);
    var s := Added(Start(), a).0;
    var free := DropRefinesMap(s, map[RESERVED := a], [], RESERVED);
    var s' := Dropped(s, RESERVED);
    var none: map<nat, JsValue> := map[];
    assert map[RESERVED := a] - {RESERVED} == none && none - {RESERVED} == none;
    assert free[0] == RESERVED;
    SecondDropHandsOutTwice(s', none, free, 0, [b, c]);
    DropIsSafeIffLive(s', none, free, RESERVED);
  }

  // ---------------------------------------------------------------------------
  // Requests

  datatype Op = Add(obj: JsValue) | Take(h: nat) | Get(h: nat)

  datatype Answer = Handle(h: nat) | Value(v: JsValue)

  /** The code's step: it sees the table alone. */
  function Step(s: Slab, op: Op): (Slab, Answer)
    requires s.next <= |s.heap| && CanAllocate(s)
    requires op.Take? ==> op.h < |s.heap|
  {
    match op
    case Add(obj) => var (s', h) := Added(s, obj); (s', Handle(h))
    case Take(h) => (Dropped(s, h), Value(ValueAt(s, h)))
    case Get(h) => (s, Value(ValueAt(s, h)))
  }

  /** What wasm may ask for: handles it holds, or constants. */
  predicate Legal(live: map<nat, JsValue>, op: Op) {
    !op.Add? ==> op.h < RESERVED || op.h in live
  }

  /** The same step of a plain map from handles to objects; only the choice of the
      new handle is left open, and it must be unused. */
  ghost predicate MapStep(live: map<nat, JsValue>, op: Op, answer: Answer, live': map<nat, JsValue>)
    requires Legal(live, op)
  {
    match op
    case Add(obj) =>
      answer.Handle? && RESERVED <= answer.h && answer.h !in live && live' == live[answer.h := obj]
    case Take(h) => answer == Value(Lookup(live, h)) && live' == live - {h}
    case Get(h) => answer == Value(Lookup(live, h)) && live' == live
  }

  /** What wasm holds after a request, going by the answers it was given. */
  function Track(held: map<nat, JsValue>, op: Op, answer: Answer): map<nat, JsValue> {
    match op
    case Add(obj) => if answer.Handle? then held[answer.h := obj] else held
    case Take(h) => held - {h}
    case Get(_) => held
  }

  /** The code's step is defined: no index falls outside the table. */
  predicate Ready(s: Slab, op: Op) {
    && s.next <= |s.heap| && CanAllocate(s)
    && (op.Take? ==> op.h < |s.heap|)
  }

  /** The table together with what wasm holds. */
  datatype World = World(slab: Slab, held: map<nat, JsValue>)

  function Next(w: World, op: Op): World
    requires Ready(w.slab, op)
  {
    var (s', answer) := Step(w.slab, op);
    World(s', Track(w.held, op, answer))
  }

  ghost predicate Sound(w: World) {
    exists free :: Inv(w.slab, w.held, free)
  }

  /** Every legal request on a sound table is defined, answered as the map answers it and
      leaves the table sound; growth happens only when every cell is in use. */
  lemma StepRefinesMapStep(w: World, op: Op)
    requires Sound(w) && Legal(w.held, op)
    ensures Ready(w.slab, op)
    ensures Sound(Next(w, op))
    ensures MapStep(w.held, op, Step(w.slab, op).1, Next(w, op).held)
    ensures |w.held| <= |w.slab.heap| - RESERVED
    ensures var w' := Next(w, op);
      |w'.slab.heap| == |w.slab.heap| ||
      (|w'.slab.heap| == |w.slab.heap| + 1 && |w'.held| == |w'.slab.heap| - RESERVED)
  {
    var free :| Inv(w.slab, w.held, free);
    match op
    case Add(obj) =>
      var free' := AddRefinesMap(w.slab, w.held, free, obj);
    case Take(h) =>
      GetRefinesMap(w.slab, w.held, free, h);
      var free' := DropRefinesMap(w.slab, w.held, free, h);
    case Get(h) =>
      GetRefinesMap(w.slab, w.held, free, h);
  }

  // ---------------------------------------------------------------------------
  // Whole runs

  /** A run from the start in which every request is legal for what wasm then holds. */
  ghost predicate Run(ws: seq<World>, ops: seq<Op>) {
    && |ws| == |ops| + 1
    && ws[0] == World(Start(), map[])
    && (forall i :: 0 <= i < |ops| ==> Legal(ws[i].held, ops[i]))
    && (forall i :: 0 <= i < |ops| ==> Ready(ws[i].slab, ops[i]) ==> ws[i + 1] == Next(ws[i], ops[i]))
  }

  /** `size` is the largest number of handles held at once in the worlds `ws`. */
  ghost predicate IsPeak(size: int, ws: seq<World>) {
    && (forall k :: 0 <= k < |ws| ==> |ws[k].held| <= size)
    && (exists k :: 0 <= k < |ws| && |ws[k].held| == size)
  }

  lemma PeakExtends(ws: seq<World>, w: World, w': World)
    requires IsPeak(|w.slab.heap| - RESERVED, ws)
    requires Sound(w')
    requires |w'.slab.heap| == |w.slab.heap| ||
             (|w'.slab.heap| == |w.slab.heap| + 1 && |w'.held| == |w'.slab.heap| - RESERVED)
    ensures IsPeak(|w'.slab.heap| - RESERVED, ws + [w'])
  {
    var ws' := ws + [w'];
    if |w'.slab.heap| == |w.slab.heap| {
      var k :| 0 <= k < |ws| && |ws[k].held| == |w.slab.heap| - RESERVED;
      assert |ws'[k].held| == |w'.slab.heap| - RESERVED;
    } else {
      assert ws'[|ws|] == w';
    }
  }

  /** One more request: still sound, and still as long as peak demand. */
  lemma StepKeepsPeak(ws: seq<World>, w: World, op: Op)
    requires Sound(w) && Legal(w.held, op) && IsPeak(|w.slab.heap| - RESERVED, ws)
    ensures Ready(w.slab, op) && Sound(Next(w, op))
    ensures IsPeak(|Next(w, op).slab.heap| - RESERVED, ws + [Next(w, op)])
  {
    StepRefinesMapStep(w, op);
    PeakExtends(ws, w, Next(w, op));
  }

  /** At every point of every run the table is sound, and its length is the number of
      reserved cells plus the largest number of handles held at once so far. */
  lemma {:induction false} RunIsSound(ws: seq<World>, ops: seq<Op>, k: nat)
    requires Run(ws, ops) && k <= |ops|
    ensures Sound(ws[k])
    ensures IsPeak(|ws[k].slab.heap| - RESERVED, ws[..k + 1])
  {
    if k == 0 {
      StartIsSlab();
      assert ws[..1][0] == ws[0];
    } else {
      RunIsSound(ws, ops, k - 1);
      StepKeepsPeak(ws[..k], ws[k - 1], ops[k - 1]);
      assert ws[..k + 1] == ws[..k] + [ws[k]];
    }
  }

  /** Every run answers every request as the plain map does. */
  lemma RunRefinesMap(ws: seq<World>, ops: seq<Op>, k: nat)
    requires Run(ws, ops) && k < |ops|
    ensures Ready(ws[k].slab, ops[k])
    ensures MapStep(ws[k].held, ops[k], Step(ws[k].slab, ops[k]).1, ws[k + 1].held)
    ensures forall h: nat :: h < RESERVED ==> ValueAt(ws[k + 1].slab, h) == Constant(h)
  {
    RunIsSound(ws, ops, k);
    StepRefinesMapStep(ws[k], ops[k]);
    forall h: nat | h < RESERVED
      ensures ValueAt(ws[k + 1].slab, h) == Constant(h)
    {
      ConstantsNeverChange(ws, ops, k + 1, h);
    }
  }

  /** What the reserved handles read as, at every point of every run. */
  lemma ConstantsNeverChange(ws: seq<World>, ops: seq<Op>, k: nat, h: nat)
    requires Run(ws, ops) && k <= |ops|
    ensures h < 129 ==> ValueAt(ws[k].slab, h) == Undefined
    ensures h == 129 ==> ValueAt(ws[k].slab, h) == Null
    ensures h == 130 ==> ValueAt(ws[k].slab, h) == Bool(true)
    ensures h == 131 ==> ValueAt(ws[k].slab, h) == Bool(false)
    ensures forall i :: i in ws[k].held ==> 132 <= i
  {
    RunIsSound(ws, ops, k);
    var w := ws[k];
    var free :| Inv(w.slab, w.held, free);
    if h < 132 {
      GetRefinesMap(w.slab, w.held, free, h);
    }
  }

  // ---------------------------------------------------------------------------
  // The table itself

  class ObjectTable {
    var heap: seq<JsValue>
    var heapNext: nat
    ghost var live: map<nat, JsValue>
    ghost var free: seq<nat>

    ghost predicate Valid()
      reads this
    {
      Inv(State(), live, free)
    }

    ghost function State(): Slab
      reads this
    {
      Slab(heap, heapNext)
    }

    constructor ()
      ensures Valid() && live == map[] && State() == Start()
      ensures |heap| == heapNext == 132
    {
      var cells := seq(128, _ => Undefined);
      cells := cells + [Undefined, Null, Bool(true), Bool(false)];
      heap, heapNext := cells, |cells|;
      live, free := map[], [];
      new;
      assert heap == Start().heap;
      StartIsSlab();
    }

    lemma HandlesInTable()
      requires Valid()
      ensures forall h :: h in live ==> h < |heap|
    {
    }

    method GetObject(idx: nat) returns (obj: JsValue)
      requires Valid()
      ensures obj == ValueAt(State(), idx)
      ensures if idx < |heap| then obj == heap[idx] else obj == Undefined
      ensures idx < RESERVED || idx in live ==> obj == Lookup(live, idx)
      ensures idx < 129 ==> obj == Undefined
      ensures idx == 129 ==> obj == Null
      ensures idx == 130 ==> obj == Bool(true)
      ensures idx == 131 ==> obj == Bool(false)
    {
      obj := if idx < |heap| then heap[idx] else Undefined;
      if idx < RESERVED || idx in live {
        GetRefinesMap(State(), live, free, idx);
      }
    }

    method DropObject(idx: nat)
      requires Valid() && (idx < RESERVED || idx in live)
      modifies this
      ensures Valid()
      ensures live == old(live) - {idx} && |heap| == old(|heap|)
      ensures State() == Dropped(old(State()), idx)
    {
      ghost var free' := DropRefinesMap(State(), live, free, idx);
      live, free := live - {idx}, free';
      if idx < RESERVED {
        return;
      }
      heap := heap[idx := Number(heapNext)];
      heapNext := idx;
    }

    method TakeObject(idx: nat) returns (obj: JsValue)
      requires Valid() && (idx < RESERVED || idx in live)
      modifies this
      ensures Valid()
      ensures obj == Lookup(old(live), idx)
      ensures idx < 129 ==> obj == Undefined
      ensures idx == 129 ==> obj == Null
      ensures idx == 130 ==> obj == Bool(true)
      ensures idx == 131 ==> obj == Bool(false)
      ensures 132 <= idx ==> obj == old(live)[idx]
      ensures live == old(live) - {idx} && |heap| == old(|heap|)
      ensures State() == Dropped(old(State()), idx)
    {
      obj := GetObject(idx);
      DropObject(idx);
    }

    method AddHeapObject(obj: JsValue) returns (idx: nat)
      requires Valid()
      modifies this
      ensures Valid()
      ensures RESERVED <= idx < |heap| && idx !in old(live)
      ensures live == old(live)[idx := obj]
      ensures |heap| == if old(free) == [] then old(|heap|) + 1 else old(|heap|)
      ensures (State(), idx) == Added(old(State()), obj)
    {
      ghost var free' := AddRefinesMap(State(), live, free, obj);
      if heapNext == |heap| {
        heap := heap + [Number(|heap| + 1)];
      }
      idx := heapNext;
      heapNext := heap[idx].n;
      heap := heap[idx := obj];
      live, free := live[idx := obj], free';
    }

    /** A second, independent handle for the object behind `idx`. */
    method CloneRef(idx: nat) returns (copy: nat)
      requires Valid() && (idx < RESERVED || idx in live)
      modifies this
      ensures Valid()
      ensures RESERVED <= copy && copy !in old(live)
      ensures live == old(live)[copy := Lookup(old(live), idx)]
    {
      var obj := GetObject(idx);
      copy := AddHeapObject(obj);
    }
  }
}
