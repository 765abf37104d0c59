/**
 Who owns the pointers that wasm hands out.

 Every exported class follows one pattern: a wrapper object keeps a pointer in
 `__wbg_ptr`, a finalisation registry may keep a copy, and the pointer goes back to
 wasm when the wrapper is freed, passed by value, or collected.  Pointers are numbered
 in the order wasm issues them, so a reused address counts as a new pointer; 0 is null.
 */
module Ownership {
  import opened Sequences

  /** The pointer of each wrapper, and the entries of the finalisation registry. */
  datatype Glue<O(==)> = Glue(ptr: map<O, nat>, registry: map<O, nat>)

  /** With the bookkeeping of the world: pointers 1 to `issued` were handed out, `given` went
      back, in order, and `lost` can never go back. */
  datatype World<O(==)> = World(glue: Glue<O>, issued: nat, given: seq<nat>, lost: set<nat>)

  /** An argument as `_assertClass` sees it; `Absent` is an optional one that was not given. */
  datatype Arg<+O> = Instance(o: O) | Foreign | Absent

  datatype Event<+O> =
    | Wrap(o: O)                  // a call returned a pointer, `__wrap` registers it
    | Construct(o: O)             // a public constructor: not registered
    | Borrow(o: O)                // a method passes `this.__wbg_ptr`
    | Consume(args: seq<Arg<O>>)  // a call takes its arguments by value
    | Free(o: O)
    | Collect(o: O)               // the collector reclaims the wrapper

  function Start<O(==)>(): World<O> {
    World(Glue(map[], map[]), 0, [], {})
  }

  /** `__destroy_into_raw`. */
  function IntoRaw<O(==)>(g: Glue<O>, o: O): (Glue<O>, nat)
    requires o in g.ptr
  {
    (Glue(g.ptr[o := 0], g.registry - {o}), g.ptr[o])
  }

  predicate KnownArg<O(==)>(g: Glue<O>, arg: Arg<O>) {
    arg.Instance? ==> arg.o in g.ptr
  }

  predicate Known<O(==)>(g: Glue<O>, args: seq<Arg<O>>) {
    forall i :: 0 <= i < |args| ==> KnownArg(g, args[i])
  }

  /** One argument by value: its wrapper's pointer, or null if it is absent. */
  function TakeOne<O(==)>(g: Glue<O>, arg: Arg<O>): (Glue<O>, nat)
    requires KnownArg(g, arg)
  {
    if arg.Instance? then IntoRaw(g, arg.o) else (g, 0)
  }

  /** Take the arguments by value from left to right; a foreign one ends it with an exception. */
  function TakeArgs<O(==)>(g: Glue<O>, args: seq<Arg<O>>): (r: (Glue<O>, seq<nat>, bool))
    requires Known(g, args)
    ensures r.0.ptr.Keys == g.ptr.Keys && |r.1| <= |args| && (r.2 ==> |r.1| == |args|)
    decreases |args|
  {
    if args == [] then (g, [], true)
    else
      var n := |args| - 1;
      var (g', ps, ok) := TakeArgs(g, args[..n]);
      if !ok || args[n].Foreign? then (g', ps, false)
      else
        var (g'', p) := TakeOne(g', args[n]);
        (g'', ps + [p], true)
  }

  lemma TakeArgsExtend<O>(g: Glue<O>, args: seq<Arg<O>>, arg: Arg<O>)
    requires Known(g, args) && KnownArg(g, arg)
    ensures Known(g, args + [arg])
    ensures var (g', ps, ok) := TakeArgs(g, args);
      var after := TakeArgs(g, args + [arg]);
      if !ok || arg.Foreign? then after == (g', ps, false)
      else KnownArg(g', arg) && after == (TakeOne(g', arg).0, ps + [TakeOne(g', arg).1], true)
  {
  }

  function NonNull(p: nat): seq<nat> { if p == 0 then [] else [p] }

  function NonNulls(ps: seq<nat>): seq<nat> {
    if ps == [] then [] else NonNulls(ps[..|ps| - 1]) + NonNull(ps[|ps| - 1])
  }

  predicate Legal<O(==)>(w: World<O>, e: Event<O>) {
    match e
    case Wrap(o) => o !in w.glue.ptr
    case Construct(o) => o !in w.glue.ptr
    case Consume(args) => Known(w.glue, args)
    case Borrow(o) => o in w.glue.ptr
    case Free(o) => o in w.glue.ptr
    case Collect(o) => o in w.glue.ptr
  }

  /** What wasm is given to own: for a collected wrapper, what the registry kept. */
  function Given<O(==)>(w: World<O>, e: Event<O>): seq<nat>
    requires Legal(w, e)
  {
    match e
    case Consume(args) => var (_, ps, ok) := TakeArgs(w.glue, args); if ok then NonNulls(ps) else []
    case Free(o) => NonNull(w.glue.ptr[o])
    case Collect(o) => if o in w.glue.registry then NonNull(w.glue.registry[o]) else []
    case _ => []
  }

  /** What nobody can give back any more: pointers already taken when a later argument turned out
      foreign, and the pointer of a collected wrapper that was not registered. */
  function Lost<O(==)>(w: World<O>, e: Event<O>): seq<nat>
    requires Legal(w, e)
  {
    match e
    case Consume(args) => var (_, ps, ok) := TakeArgs(w.glue, args); if ok then [] else NonNulls(ps)
    case Collect(o) => if o in w.glue.registry then [] else NonNull(w.glue.ptr[o])
    case _ => []
  }

  function GlueStep<O(==)>(w: World<O>, e: Event<O>): Glue<O>
    requires Legal(w, e)
  {
    var Glue(ptr, registry) := w.glue;
    match e
    case Wrap(o) => Glue(ptr[o := w.issued + 1], registry[o := w.issued + 1])
    case Construct(o) => Glue(ptr[o := w.issued + 1], registry)
    case Borrow(_) => w.glue
    case Consume(args) => TakeArgs(w.glue, args).0
    case Free(o) => IntoRaw(w.glue, o).0
    case Collect(o) => Glue(ptr - {o}, registry - {o})
  }

  function Step<O(==)>(w: World<O>, e: Event<O>): World<O>
    requires Legal(w, e)
  {
    World(GlueStep(w, e),
          if e.Wrap? || e.Construct? then w.issued + 1 else w.issued,
          w.given + Given(w, e),
          w.lost + (set p | p in Lost(w, e)))
  }

  // ---------------------------------------------------------------------------
  // The invariant

  ghost predicate Held<O>(g: Glue<O>, p: nat) {
    exists o :: o in g.ptr && g.ptr[o] == p
  }

  /** Every issued pointer is in one place: one wrapper, the given ones, or the lost ones. */
  ghost predicate Placed<O>(g: Glue<O>, issued: nat, given: seq<nat>, lost: set<nat>, p: nat) {
    && (p in given ==> 0 < p <= issued && p !in lost)
    && (p in lost ==> 0 < p <= issued)
    && (p != 0 && Held(g, p) ==> p <= issued && p !in given && p !in lost)
    && (0 < p <= issued ==> p in given || p in lost || Held(g, p))
  }

  ghost predicate Inv<O>(g: Glue<O>, issued: nat, given: seq<nat>, lost: set<nat>) {
    && NoDuplicates(given)
    && (forall p {:trigger Placed(g, issued, given, lost, p)} :: Placed(g, issued, given, lost, p))
    && (forall o, o' :: o in g.ptr && o' in g.ptr && o != o' && g.ptr[o] != 0 ==> g.ptr[o] != g.ptr[o'])
    && (forall o :: o in g.registry ==> o in g.ptr && g.registry[o] == g.ptr[o] != 0)
  }

  ghost predicate Sound<O>(w: World<O>) {
    Inv(w.glue, w.issued, w.given, w.lost)
  }

  lemma IntoRawKeepsInv<O>(g: Glue<O>, issued: nat, given: seq<nat>, lost: set<nat>, o: O)
    requires Inv(g, issued, given, lost) && o in g.ptr
    ensures Inv(IntoRaw(g, o).0, issued, given + NonNull(g.ptr[o]), lost)
  {
    var g', p := IntoRaw(g, o).0, g.ptr[o];
    var given' := given + NonNull(p);
    assert Held(g, p);
    assert Placed(g, issued, given, lost, p);
    forall q
      ensures Placed(g', issued, given', lost, q)
    {
      assert Placed(g, issued, given, lost, q);
      if q != 0 && q != p && Held(g, q) {
        var x :| x in g.ptr && g.ptr[x] == q;
        assert x in g'.ptr && g'.ptr[x] == q;
      }
      if q != 0 && Held(g', q) {
        var x :| x in g'.ptr && g'.ptr[x] == q;
        assert x in g.ptr && g.ptr[x] == q;
      }
    }
  }

  lemma NonNullsExtend(given: seq<nat>, ps: seq<nat>, p: nat)
    ensures given + NonNulls(ps) + NonNull(p) == given + NonNulls(ps + [p])
  {
  }

  lemma {:induction false} TakeArgsKeepsInv<O>(g: Glue<O>, issued: nat, given: seq<nat>, lost: set<nat>,
                                               args: seq<Arg<O>>)
    requires Inv(g, issued, given, lost) && Known(g, args)
    ensures var (g', ps, _) := TakeArgs(g, args); Inv(g', issued, given + NonNulls(ps), lost)
    decreases |args|
  {
    if args == [] {
      assert given + [] == given;
    } else {
      var n := |args| - 1;
      assert Known(g, args[..n]);
      TakeArgsKeepsInv(g, issued, given, lost, args[..n]);
      var (g', ps, ok) := TakeArgs(g, args[..n]);
      if ok && !args[n].Foreign? {
        if args[n].Instance? {
          IntoRawKeepsInv(g', issued, given + NonNulls(ps), lost, args[n].o);
        } else {
          assert given + NonNulls(ps) + NonNull(0) == given + NonNulls(ps);
        }
        NonNullsExtend(given, ps, TakeOne(g', args[n]).1);
      }
    }
  }

  lemma PartsAreDisjoint(given: seq<nat>, hand: seq<nat>, p: nat)
    requires NoDuplicates(given + hand) && p in given
    ensures p !in hand
  {
    var all := given + hand;
    var i :| 0 <= i < |given| && given[i] == p;
    forall j | 0 <= j < |hand|
      ensures hand[j] != p
    {
      assert all[i] == p && all[|given| + j] == hand[j];
    }
  }

  /** Pointers in hand when an exception is thrown are lost instead of given. */
  lemma LosingKeepsInv<O>(g: Glue<O>, issued: nat, given: seq<nat>, lost: set<nat>, hand: seq<nat>)
    requires Inv(g, issued, given + hand, lost)
    ensures Inv(g, issued, given, lost + set p | p in hand)
  {
    var all, lost' := given + hand, lost + set p | p in hand;
    forall p
      ensures Placed(g, issued, given, lost', p)
    {
      assert Placed(g, issued, all, lost, p);
      if p in given {
        PartsAreDisjoint(given, hand, p);
      }
    }
    forall i, j | 0 <= i < j < |given|
      ensures given[i] != given[j]
    {
      assert all[i] == given[i] && all[j] == given[j];
    }
  }

  lemma IssueKeepsInv<O>(g: Glue<O>, issued: nat, given: seq<nat>, lost: set<nat>, o: O, registered: bool)
    requires Inv(g, issued, given, lost) && o !in g.ptr
    ensures var p := issued + 1;
      Inv(Glue(g.ptr[o := p], if registered then g.registry[o := p] else g.registry), p, given, lost)
  {
    var n := issued + 1;
    var g' := Glue(g.ptr[o := n], if registered then g.registry[o := n] else g.registry);
    assert g'.ptr[o] == n && Held(g', n);
    forall x | x in g.ptr
      ensures g.ptr[x] < n
    {
      assert Held(g, g.ptr[x]) && Placed(g, issued, given, lost, g.ptr[x]);
    }
    forall p
      ensures Placed(g', n, given, lost, p)
    {
      assert Placed(g, issued, given, lost, p);
      if Held(g, p) {
        var x :| x in g.ptr && g.ptr[x] == p;
        assert g'.ptr[x] == p;
      }
      if p != n && Held(g', p) {
        var x :| x in g'.ptr && g'.ptr[x] == p;
        assert g.ptr[x] == p;
      }
    }
  }

  /** A wrapper without a pointer can be forgotten. */
  lemma ForgettingKeepsInv<O>(g: Glue<O>, issued: nat, given: seq<nat>, lost: set<nat>, o: O)
    requires Inv(g, issued, given, lost) && o in g.ptr && g.ptr[o] == 0
    ensures Inv(Glue(g.ptr - {o}, g.registry - {o}), issued, given, lost)
  {
    var g' := Glue(g.ptr - {o}, g.registry - {o});
    forall p
      ensures Placed(g', issued, given, lost, p)
    {
      assert Placed(g, issued, given, lost, p);
      if p != 0 && Held(g, p) {
        var x :| x in g.ptr && g.ptr[x] == p;
        assert x in g'.ptr && g'.ptr[x] == p;
      }
      if Held(g', p) {
        var x :| x in g'.ptr && g'.ptr[x] == p;
        assert g.ptr[x] == p;
      }
    }
  }

  lemma CollectKeepsInv<O>(w: World<O>, o: O)
    requires Sound(w) && o in w.glue.ptr
    ensures Sound(Step(w, Collect(o)))
  {
    var (g', p) := IntoRaw(w.glue, o);
    IntoRawKeepsInv(w.glue, w.issued, w.given, w.lost, o);
    ForgettingKeepsInv(g', w.issued, w.given + NonNull(p), w.lost, o);
    assert g'.ptr - {o} == w.glue.ptr - {o} && g'.registry - {o} == w.glue.registry - {o};
    if o !in w.glue.registry {
      LosingKeepsInv(GlueStep(w, Collect(o)), w.issued, w.given, w.lost, NonNull(p));
    }
    NothingMore(w, Collect(o));
  }

  lemma NothingMore<O>(w: World<O>, e: Event<O>)
    requires Legal(w, e)
    ensures Given(w, e) == [] ==> w.given + Given(w, e) == w.given
    ensures Lost(w, e) == [] ==> w.lost + (set p | p in Lost(w, e)) == w.lost
  {
  }

  /** A new pointer, registered or not. */
  lemma IssueStep<O>(w: World<O>, o: O)
    requires o !in w.glue.ptr
    ensures var n, ptr := w.issued + 1, w.glue.ptr[o := w.issued + 1];
      && Step(w, Wrap(o)) == World(Glue(ptr, w.glue.registry[o := n]), n, w.given, w.lost)
      && Step(w, Construct(o)) == World(Glue(ptr, w.glue.registry), n, w.given, w.lost)
  {
    NothingMore(w, Wrap(o));
    NothingMore(w, Construct(o));
  }

  lemma StepKeepsInv<O>(w: World<O>, e: Event<O>)
    requires Sound(w) && Legal(w, e)
    ensures Sound(Step(w, e))
  {
    NothingMore(w, e);
    match e
    case Wrap(o) => IssueKeepsInv(w.glue, w.issued, w.given, w.lost, o, true);
    case Construct(o) => IssueKeepsInv(w.glue, w.issued, w.given, w.lost, o, false);
    case Borrow(_) =>
    case Free(o) => IntoRawKeepsInv(w.glue, w.issued, w.given, w.lost, o);
    case Collect(o) => CollectKeepsInv(w, o);
    case Consume(args) =>
      TakeArgsKeepsInv(w.glue, w.issued, w.given, w.lost, args);
      var (g', ps, ok) := TakeArgs(w.glue, args);
      if !ok {
        LosingKeepsInv(g', w.issued, w.given, w.lost, NonNulls(ps));
      }
  }

  /** The same wrapper passed twice to one call: the second time it is the null pointer. */
  lemma {:induction false} SecondUseIsNull<O>(g: Glue<O>, args: seq<Arg<O>>, i: nat, j: nat)
    requires Known(g, args) && i < j < |TakeArgs(g, args).1| && args[i] == args[j]
    ensures TakeArgs(g, args).1[j] == 0
    decreases |args|
  {
    var n := |args| - 1;
    var (g', ps, ok) := TakeArgs(g, args[..n]);
    if j < |ps| {
      SecondUseIsNull(g, args[..n], i, j);
    } else {
      TakenIsNull(g, args[..n], i);
    }
  }

  /** A wrapper that was taken has no pointer left. */
  lemma {:induction false} TakenIsNull<O>(g: Glue<O>, args: seq<Arg<O>>, i: nat)
    requires Known(g, args) && i < |TakeArgs(g, args).1|
    ensures !args[i].Foreign? && (args[i].Instance? ==> TakeArgs(g, args).0.ptr[args[i].o] == 0)
    decreases |args|
  {
    var n := |args| - 1;
    if i < |TakeArgs(g, args[..n]).1| {
      TakenIsNull(g, args[..n], i);
    }
  }

  // ---------------------------------------------------------------------------
  // Whole runs

  ghost predicate IsRun<O>(ws: seq<World<O>>, es: seq<Event<O>>) {
    && |ws| == |es| + 1
    && ws[0] == Start()
    && (forall i :: 0 <= i < |es| ==> Legal(ws[i], es[i]) && ws[i + 1] == Step(ws[i], es[i]))
  }

  lemma {:induction false} RunIsSound<O>(ws: seq<World<O>>, es: seq<Event<O>>, k: nat)
    requires IsRun(ws, es) && k <= |es|
    ensures Sound(ws[k])
  {
    if k == 0 {
      var w: World<O> := Start();
      forall p
        ensures Placed(w.glue, w.issued, w.given, w.lost, p)
      {
      }
    } else {
      RunIsSound(ws, es, k - 1);
      StepKeepsInv(ws[k - 1], es[k - 1]);
    }
  }

  ghost predicate InOnePlace<O>(w: World<O>, p: nat) {
    || (p in w.given && p !in w.lost && !Held(w.glue, p))
    || (p in w.lost && p !in w.given && !Held(w.glue, p))
    || (Held(w.glue, p) && p !in w.given && p !in w.lost)
  }

  /** At every point of every run: no pointer was given back twice; every issued pointer is in
      exactly one place; and the registry keeps only pointers their wrappers still own. */
  lemma PointersAreLinear<O>(ws: seq<World<O>>, es: seq<Event<O>>, k: nat)
    requires IsRun(ws, es) && k <= |es|
    ensures NoDuplicates(ws[k].given)
    ensures forall p: nat :: 0 < p <= ws[k].issued ==> InOnePlace(ws[k], p)
    ensures forall o :: o in ws[k].glue.registry ==>
      var p := ws[k].glue.registry[o];
      p != 0 && o in ws[k].glue.ptr && ws[k].glue.ptr[o] == p && p !in ws[k].given && p !in ws[k].lost
  {
    RunIsSound(ws, es, k);
    var w := ws[k];
    forall p: nat | 0 < p <= w.issued
      ensures InOnePlace(w, p)
    {
      assert Placed(w.glue, w.issued, w.given, w.lost, p);
    }
    forall o | o in w.glue.registry
      ensures w.glue.registry[o] !in w.given && w.glue.registry[o] !in w.lost
    {
      assert Held(w.glue, w.glue.registry[o]);
      assert Placed(w.glue, w.issued, w.given, w.lost, w.glue.registry[o]);
    }
  }

  /** What a borrowing method passes is null or a pointer that this wrapper, and no other, owns. */
  lemma BorrowedIsOwned<O>(ws: seq<World<O>>, es: seq<Event<O>>, k: nat, o: O)
    requires IsRun(ws, es) && k < |es| && es[k] == Borrow(o)
    ensures var p := ws[k].glue.ptr[o];
      p == 0 || (0 < p <= ws[k].issued && p !in ws[k].given && p !in ws[k].lost
                 && forall o' :: o' in ws[k].glue.ptr && ws[k].glue.ptr[o'] == p ==> o' == o)
  {
    RunIsSound(ws, es, k);
    var w := ws[k];
    assert Held(w.glue, w.glue.ptr[o]);
    assert Placed(w.glue, w.issued, w.given, w.lost, w.glue.ptr[o]);
  }

  // ---------------------------------------------------------------------------
  // Where each pointer goes

  /** `o` still is what made it: wrapped, so that the registry knows whatever it holds, or made by a
      public constructor, so that the registry does not know it. */
  ghost predicate StillMadeBy<O>(g: Glue<O>, o: O, n: nat, wrapped: bool) {
    && o in g.ptr && (g.ptr[o] == 0 || g.ptr[o] == n)
    && (if wrapped then g.ptr[o] != 0 ==> o in g.registry && g.registry[o] == n else o !in g.registry)
  }

  lemma {:induction false} TakingKeepsMade<O>(g: Glue<O>, args: seq<Arg<O>>, o: O, n: nat, wrapped: bool)
    requires Known(g, args) && StillMadeBy(g, o, n, wrapped)
    ensures StillMadeBy(TakeArgs(g, args).0, o, n, wrapped)
    decreases |args|
  {
    if args != [] {
      TakingKeepsMade(g, args[..|args| - 1], o, n, wrapped);
    }
  }

  lemma StepKeepsMade<O>(w: World<O>, e: Event<O>, o: O, n: nat, wrapped: bool)
    requires Legal(w, e) && e != Collect(o) && StillMadeBy(w.glue, o, n, wrapped)
    ensures StillMadeBy(Step(w, e).glue, o, n, wrapped)
  {
    if e.Consume? {
      TakingKeepsMade(w.glue, e.args, o, n, wrapped);
    }
  }

  lemma {:induction false} MadeStays<O>(ws: seq<World<O>>, es: seq<Event<O>>, i: nat, k: nat, o: O)
    requires IsRun(ws, es) && i < k <= |es| && (es[i] == Wrap(o) || es[i] == Construct(o))
    requires forall j :: i < j < k ==> es[j] != Collect(o)
    ensures StillMadeBy(ws[k].glue, o, ws[i].issued + 1, es[i].Wrap?)
  {
    if k > i + 1 {
      MadeStays(ws, es, i, k - 1, o);
      StepKeepsMade(ws[k - 1], es[k - 1], o, ws[i].issued + 1, es[i].Wrap?);
    } else if es[i].Construct? {
      RunIsSound(ws, es, i);
    }
  }

  /** In every run a wrapper holds the pointer it was made for or null.  If the pointer came back from
      a call, the registry has it for as long as the wrapper does, and collecting the wrapper gives
      exactly that pointer back; if it came from a public constructor, it is lost. */
  lemma CollectedIsGivenBack<O>(ws: seq<World<O>>, es: seq<Event<O>>, i: nat, k: nat, o: O)
    requires IsRun(ws, es) && i < k <= |es| && (es[i] == Wrap(o) || es[i] == Construct(o))
    requires forall j :: i < j < k ==> es[j] != Collect(o)
    ensures Legal(ws[k], Collect(o))
    ensures var w, p := ws[k], ws[k].glue.ptr[o];
      && (p == 0 || p == ws[i].issued + 1)
      && (es[i].Wrap? && p != 0 ==> o in w.glue.registry && w.glue.registry[o] == p)
      && Step(w, Collect(o)).given == w.given + (if es[i].Wrap? && p != 0 then [p] else [])
      && Step(w, Collect(o)).lost == w.lost + (if es[i].Construct? && p != 0 then {p} else {})
      && o !in Step(w, Collect(o)).glue.ptr && o !in Step(w, Collect(o)).glue.registry
  {
    MadeStays(ws, es, i, k, o);
    RunIsSound(ws, es, k);
  }

  /** `free` hands over exactly the pointer, and leaves null and no entry behind. */
  lemma FreeGives<O>(w: World<O>, o: O)
    requires o in w.glue.ptr
    ensures var w', p := Step(w, Free(o)), w.glue.ptr[o];
      && w'.given == w.given + (if p != 0 then [p] else []) && w'.lost == w.lost
      && w'.glue.ptr == w.glue.ptr[o := 0] && w'.glue.registry == w.glue.registry - {o}
  {
    assert Lost(w, Free(o)) == [];
  }

  /** Argument `i` is passed as the pointer its wrapper had before the call, unless it is absent or the
      same wrapper came before it. */
  function Passed<O(==)>(g: Glue<O>, args: seq<Arg<O>>, i: nat): nat
    requires Known(g, args) && i < |args|
  {
    if args[i].Instance? && args[i] !in args[..i] then g.ptr[args[i].o] else 0
  }

  /** A call by value in full: it is made exactly if no argument is of another class; what it passes is
      as above, up to the first that is; and just the wrappers so taken lose their pointers and entries. */
  ghost predicate TakenAs<O>(g: Glue<O>, args: seq<Arg<O>>, g': Glue<O>, ps: seq<nat>, ok: bool)
    requires Known(g, args)
  {
    && |ps| <= |args| && Foreign !in args[..|ps|]
    && (if ok then |ps| == |args| else |ps| < |args| && args[|ps|].Foreign?)
    && (forall i :: 0 <= i < |ps| ==> ps[i] == Passed(g, args, i))
    && g'.ptr.Keys == g.ptr.Keys
    && (forall o :: o in g.ptr ==> g'.ptr[o] == if Instance(o) in args[..|ps|] then 0 else g.ptr[o])
    && g'.registry.Keys == (set o | o in g.registry && Instance(o) !in args[..|ps|])
    && (forall o :: o in g'.registry ==> g'.registry[o] == g.registry[o])
  }

  lemma {:induction false} TakenInFull<O>(g: Glue<O>, args: seq<Arg<O>>)
    requires Known(g, args)
    ensures var (g', ps, ok) := TakeArgs(g, args); TakenAs(g, args, g', ps, ok) && (ok <==> Foreign !in args)
    decreases |args|
  {
    if args != [] {
      var n := |args| - 1;
      TakenInFull(g, args[..n]);
      var (g0, ps0, ok0) := TakeArgs(g, args[..n]);
      assert args == args[..n] + [args[n]];
      if ok0 && !args[n].Foreign? {
        OneMoreTaken(g, args[..n], args[n], g0, ps0);
      } else {
        NoMoreTaken(g, args[..n], args[n], g0, ps0, ok0);
      }
    }
  }

  lemma OneMoreTaken<O>(g: Glue<O>, args: seq<Arg<O>>, arg: Arg<O>, g': Glue<O>, ps: seq<nat>)
    requires Known(g, args) && KnownArg(g, arg) && TakenAs(g, args, g', ps, true) && !arg.Foreign?
    ensures Known(g, args + [arg]) && KnownArg(g', arg)
    ensures TakenAs(g, args + [arg], TakeOne(g', arg).0, ps + [TakeOne(g', arg).1], true)
  {
    var args', ps' := args + [arg], ps + [TakeOne(g', arg).1];
    assert args[..|ps|] == args && args'[..|ps'|] == args';
    forall i | 0 <= i < |ps'|
      ensures ps'[i] == Passed(g, args', i)
    {
      assert args'[..i] == args[..i];
      assert i < |ps| ==> ps[i] == Passed(g, args, i);
    }
  }

  lemma NoMoreTaken<O>(g: Glue<O>, args: seq<Arg<O>>, arg: Arg<O>, g': Glue<O>, ps: seq<nat>, ok: bool)
    requires Known(g, args) && KnownArg(g, arg) && TakenAs(g, args, g', ps, ok) && (!ok || arg.Foreign?)
    ensures Known(g, args + [arg]) && TakenAs(g, args + [arg], g', ps, false)
  {
    var args' := args + [arg];
    assert args'[..|ps|] == args[..|ps|];
    forall i | 0 <= i < |ps|
      ensures ps[i] == Passed(g, args', i)
    {
      assert args'[..i] == args[..i] && ps[i] == Passed(g, args, i);
    }
  }

  /** What a call by value hands over, and what is lost if an argument of another class stops it. */
  lemma {:induction false} NonNullsAre(ps: seq<nat>, p: nat)
    ensures p in NonNulls(ps) <==> p != 0 && p in ps
  {
    if ps != [] {
      NonNullsAre(ps[..|ps| - 1], p);
      assert ps == ps[..|ps| - 1] + [ps[|ps| - 1]];
    }
  }

  lemma ConsumeGivesOrLoses<O>(w: World<O>, args: seq<Arg<O>>, p: nat)
    requires Known(w.glue, args)
    ensures var (_, ps, _) := TakeArgs(w.glue, args);
      var w' := Step(w, Consume(args));
      && (p in w'.given <==> p in w.given || (Foreign !in args && p != 0 && p in ps))
      && (p in w'.lost <==> p in w.lost || (Foreign in args && p != 0 && p in ps))
  {
    TakenInFull(w.glue, args);
    NonNullsAre(TakeArgs(w.glue, args).1, p);
  }

  // ---------------------------------------------------------------------------
  // The glue's own objects

  class Wrapper {
    var wbgPtr: nat

    constructor (ptr: nat)
      ensures wbgPtr == ptr
    {
      wbgPtr := ptr;
    }
  }

  /** The module's finalisation registry, with the wrappers it has made. */
  class Exports {
    var registry: map<Wrapper, nat>
    ghost var objects: set<Wrapper>
    ghost var issued: nat
    ghost var given: seq<nat>
    ghost var lost: set<nat>

    ghost function Now(): World<Wrapper>
      reads this, objects
    {
      World(Glue(map o | o in objects :: o.wbgPtr, registry), issued, given, lost)
    }

    ghost predicate Valid()
      reads this, objects
    {
      Sound(Now())
    }

    constructor ()
      ensures Valid() && Now() == Start()
    {
      registry, objects, issued, given, lost := map[], {}, 0, [], {};
      new;
      forall p
        ensures Placed(Now().glue, issued, given, lost, p)
      {
      }
    }

    /** `__wrap`, for the pointer a call has just returned. */
    method Wrapped(ptr: nat) returns (obj: Wrapper)
      requires Valid() && ptr == issued + 1
      modifies this
      ensures Valid() && fresh(obj) && obj !in old(Now()).glue.ptr
      ensures Now() == Step(old(Now()), Wrap(obj))
      ensures obj.wbgPtr == ptr && obj in registry && registry[obj] == ptr
    {
      ghost var before := Now();
      obj := new Wrapper(ptr);
      objects := objects + {obj};
      registry := registry[obj := ptr];
      issued := ptr;
      assert obj !in before.glue.ptr;
      StepKeepsInv(before, Wrap(obj));
      IssueStep(before, obj);
      assert Now().glue.ptr == before.glue.ptr[obj := ptr];
      assert Now() == Step(before, Wrap(obj));
    }

    /** A public constructor, for the pointer its call has just returned. */
    method Constructed(ptr: nat) returns (obj: Wrapper)
      requires Valid() && ptr == issued + 1
      modifies this
      ensures Valid() && fresh(obj) && obj !in old(Now()).glue.ptr
      ensures Now() == Step(old(Now()), Construct(obj))
      ensures obj.wbgPtr == ptr && registry == old(registry) && obj !in registry
    {
      ghost var before := Now();
      obj := new Wrapper(ptr);
      objects := objects + {obj};
      issued := ptr;
      assert obj !in before.glue.ptr && obj !in before.glue.registry;
      StepKeepsInv(before, Construct(obj));
      IssueStep(before, obj);
      assert Now().glue.ptr == before.glue.ptr[obj := ptr];
      assert Now() == Step(before, Construct(obj));
    }

    /** The collector has reclaimed a wrapper: what the registry's callback gives back, if it runs. */
    method Collected(obj: Wrapper) returns (ptr: nat)
      requires Valid() && obj in objects
      modifies this
      ensures Valid() && Now() == Step(old(Now()), Collect(obj))
      ensures ptr == if obj in old(registry) then old(registry)[obj] else 0
      ensures given == old(given) + (if ptr != 0 then [ptr] else []) && obj !in registry && obj !in objects
      ensures obj !in old(registry) && obj.wbgPtr != 0 ==> lost == old(lost) + {obj.wbgPtr}
      ensures obj in old(registry) || obj.wbgPtr == 0 ==> lost == old(lost)
    {
      ghost var before := Now();
      ptr := 0;
      if obj in registry {
        ptr := registry[obj];
        registry := registry - {obj};
      } else {
        lost := lost + (if obj.wbgPtr != 0 then {obj.wbgPtr} else {});
      }
      given := given + NonNull(ptr);
      objects := objects - {obj};
      StepKeepsInv(before, Collect(obj));
      NothingMore(before, Collect(obj));
      assert Now().glue.ptr == before.glue.ptr - {obj};
      assert Now().glue.registry == before.glue.registry - {obj};
      assert Now() == Step(before, Collect(obj));
    }

    /** `__destroy_into_raw`: the wrapper forgets the pointer and the registry its entry. */
    method DestroyIntoRaw(obj: Wrapper) returns (ptr: nat)
      requires obj in objects
      modifies this`registry, obj
      ensures (Now().glue, ptr) == IntoRaw(old(Now()).glue, obj)
      ensures ptr == old(obj.wbgPtr) && obj.wbgPtr == 0 && registry == old(registry) - {obj}
    {
      ghost var before := Now().glue;
      ptr := obj.wbgPtr;
      obj.wbgPtr := 0;
      registry := registry - {obj};
      assert Now().glue.ptr == before.ptr[obj := 0];
    }

    /** `free`; the result is what wasm is given. */
    method Freed(obj: Wrapper) returns (ptr: nat)
      requires Valid() && obj in objects
      modifies this, obj
      ensures Valid() && NonNull(ptr) == Given(old(Now()), Free(obj))
      ensures Now() == Step(old(Now()), Free(obj))
      ensures ptr == old(obj.wbgPtr) && obj.wbgPtr == 0 && registry == old(registry) - {obj}
      ensures given == old(given) + (if ptr != 0 then [ptr] else []) && lost == old(lost)
    {
      ghost var before := Now();
      ptr := DestroyIntoRaw(obj);
      given := given + NonNull(ptr);
      StepKeepsInv(before, Free(obj));
      NothingMore(before, Free(obj));
      assert Now() == Step(before, Free(obj));
    }

    /** `__unwrap`: 0 for anything that is not a wrapper of the class. */
    method Unwrapped(arg: Arg<Wrapper>) returns (ptr: nat)
      requires Valid() && (arg.Instance? ==> arg.o in Now().glue.ptr)
      modifies this, Instances(arg)
      ensures Valid()
      ensures !arg.Instance? ==> ptr == 0 && Now() == old(Now())
      ensures arg.Instance? ==> Now() == Step(old(Now()), Free(arg.o)) && NonNull(ptr) == Given(old(Now()), Free(arg.o))
      ensures arg.Instance? ==> ptr == old(arg.o.wbgPtr) && arg.o.wbgPtr == 0
    {
      if !arg.Instance? {
        return 0;
      }
      ptr := Freed(arg.o);
    }

    /** One argument by value, after those already taken; `ok` turns false where `_assertClass` throws,
        which it is not asked to do for an absent one, and then nothing more is taken. */
    method TakeArg(arg: Arg<Wrapper>, ptrs: seq<nat>, ok: bool, ghost g: Glue<Wrapper>, ghost args: seq<Arg<Wrapper>>)
        returns (ptrs': seq<nat>, ok': bool)
      requires Known(g, args) && KnownArg(g, arg) && (Now().glue, ptrs, ok) == TakeArgs(g, args)
      requires arg.Instance? ==> arg.o in objects
      modifies this`registry, Instances(arg)
      ensures Known(g, args + [arg]) && (Now().glue, ptrs', ok') == TakeArgs(g, args + [arg])
    {
      TakeArgsExtend(g, args, arg);
      if !ok || arg.Foreign? {
        return ptrs, false;
      }
      var p := 0;
      if arg.Instance? {
        p := DestroyIntoRaw(arg.o);
      }
      return ptrs + [p], true;
    }

    /** A call that takes three wrappers by value; the result is what is passed, and whether the
        call is made at all. */
    method TakeThree(a: Arg<Wrapper>, b: Arg<Wrapper>, c: Arg<Wrapper>) returns (ptrs: seq<nat>, ok: bool)
      requires Valid() && KnownArg(Now().glue, a) && KnownArg(Now().glue, b) && KnownArg(Now().glue, c)
      modifies this, Instances(a), Instances(b), Instances(c)
      ensures Known(old(Now()).glue, [a, b, c])
      ensures Valid() && Now() == Step(old(Now()), Consume([a, b, c]))
      ensures (Now().glue, ptrs, ok) == TakeArgs(old(Now()).glue, [a, b, c])
    {
      ghost var before := Now();
      ptrs, ok := TakeArg(a, [], true, before.glue, []);
      ptrs, ok := TakeArg(b, ptrs, ok, before.glue, [] + [a]);
      ptrs, ok := TakeArg(c, ptrs, ok, before.glue, [] + [a] + [b]);
      assert [] + [a] + [b] + [c] == [a, b, c];
      RecordCall(before, [a, b, c]);
    }

    ghost method RecordCall(before: World<Wrapper>, args: seq<Arg<Wrapper>>)
      requires Sound(before) && Known(before.glue, args) && Now().glue == TakeArgs(before.glue, args).0
      requires issued == before.issued && given == before.given && lost == before.lost
      modifies this`given, this`lost
      ensures Valid() && Now() == Step(before, Consume(args))
    {
      ghost var e := Consume(args);
      given := given + Given(before, e);
      lost := lost + set p | p in Lost(before, e);
      StepKeepsInv(before, e);
      assert Now() == Step(before, e);
    }

    static function Instances(arg: Arg<Wrapper>): set<Wrapper> {
      if arg.Instance? then {arg.o} else {}
    }
  }
}
