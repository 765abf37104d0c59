/**
 The life of a Rust closure behind a JavaScript function.

 The glue keeps the address of the closure's environment in `a` and counts the
 activations plus one for Rust's own ownership.  While an activation runs, `a` is
 zeroed, so that a call from inside it gets the null address, which Rust refuses.  The
 environment can be released by Rust itself (when `__wbindgen_cb_drop` answers true), by
 the activation that brings the count to zero, or by the garbage collector's finaliser.
 */
module Closures {

  /** What is on JavaScript's stack for this closure: a running call, with the address it
      saved, or the destructor that a call runs when it was the last one. */
  datatype Frame = InCall(a: nat) | InDtor

  /** `a`, `cnt` and the registration are the glue's; the rest is bookkeeping about the world:
      the environment's address as Rust knows it, the frames on the stack, whether wasm still
      holds a handle to the function, whether Rust dropped it, whether the finaliser ran, and
      whether the environment was released. */
  datatype State = State(a: nat, cnt: int, registered: bool, env: nat, frames: seq<Frame>,
                         held: bool, dropped: bool, finalised: bool, released: bool)

  /** `Forget` is Rust giving up its handle without dropping the closure. */
  datatype Event = Call | Return | DtorDone | CbDrop | Forget | Finalise

  /** An address handed to Rust: to run the closure, or to release its environment. */
  datatype Effect = Run(ptr: nat) | Release(ptr: nat) | Silent

  function Start(p: nat, hasRegistry: bool): State {
    State(p, 1, hasRegistry, p, [], true, false, false, false)
  }

  function Top(s: State): Frame
    requires s.frames != []
  {
    s.frames[|s.frames| - 1]
  }

  function Below(s: State): seq<Frame>
    requires s.frames != []
  {
    s.frames[..|s.frames| - 1]
  }

  /** What can happen: calls as long as the function is reachable, from anywhere; returns in
      stack order; at most one drop, by the holder of the handle; finalisation when nothing
      refers to the function any more. */
  predicate Enabled(s: State, e: Event) {
    match e
    case Call => !s.finalised
    case Return => s.frames != [] && Top(s).InCall?
    case DtorDone => s.frames != [] && Top(s).InDtor?
    case CbDrop => s.held
    case Forget => s.held
    case Finalise => !s.held && s.frames == [] && s.registered && !s.finalised
  }

  function EffectOf(s: State, e: Event): Effect
    requires Enabled(s, e)
  {
    match e
    case Call => Run(s.a)
    case Return => if s.cnt - 1 == 0 then Release(Top(s).a) else Silent
    case CbDrop => if s.cnt == 1 then Release(s.env) else Silent
    case Finalise => Release(s.a)
    case _ => Silent
  }

  /** Rust ignores the null address, so only a non-null one releases the environment. */
  predicate Releases(f: Effect) { f.Release? && f.ptr != 0 }

  function Step(s: State, e: Event): State
    requires Enabled(s, e)
  {
    var s := s.(released := s.released || Releases(EffectOf(s, e)));
    match e
    case Call => s.(cnt := s.cnt + 1, a := 0, frames := s.frames + [InCall(s.a)])
    case Return =>
      var cnt := s.cnt - 1;
      if cnt == 0 then s.(cnt := cnt, frames := Below(s) + [InDtor])
      else s.(cnt := cnt, a := Top(s).a, frames := Below(s))
    case DtorDone => s.(frames := Below(s), registered := false)
    case CbDrop =>
      var s := s.(held := false, dropped := true);
      if s.cnt == 1 then s.(cnt := 0, a := 0) else s.(cnt := s.cnt - 1)
    case Forget => s.(held := false)
    case Finalise => s.(finalised := true, registered := false)
  }

  // ---------------------------------------------------------------------------
  // The invariant

  function Calls(frames: seq<Frame>): nat {
    if frames == [] then 0
    else Calls(frames[..|frames| - 1]) + (if frames[|frames| - 1].InCall? then 1 else 0)
  }

  /** No frame from `i` on has the environment. */
  ghost predicate NullFrom(frames: seq<Frame>, i: nat) {
    forall k :: i <= k < |frames| ==> frames[k] == InDtor || frames[k] == InCall(0)
  }

  /** The environment's address `p` is in one place: in `a`, in the outermost call, or gone. */
  ghost predicate Placed(s: State, p: nat) {
    if s.released then NullFrom(s.frames, 0) && (s.finalised || (s.a == 0 && s.dropped))
    else if s.frames == [] then s.a == p && !s.dropped
    else s.a == 0 && s.frames[0] == InCall(p) && NullFrom(s.frames, 1) && InDtor !in s.frames
  }

  ghost predicate Inv(s: State, p: nat, hasRegistry: bool) {
    && s.env == p != 0
    && s.cnt == Calls(s.frames) + (if s.dropped then 0 else 1)
    && Placed(s, p)
    && (s.held ==> !s.dropped && !s.finalised)
    && (s.finalised ==> s.released && s.frames == [])
    && (!s.released ==> s.registered == hasRegistry)
  }

  lemma CallsFromBottom(frames: seq<Frame>)
    requires frames != [] && frames[0].InCall?
    ensures Calls(frames) >= 1
    ensures InDtor !in frames && |frames| > 1 ==> Calls(frames) >= 2
  {
    if |frames| > 1 {
      CallsFromBottom(frames[..|frames| - 1]);
    }
  }

  lemma CallsExtend(frames: seq<Frame>, f: Frame)
    ensures Calls(frames + [f]) == Calls(frames) + (if f.InCall? then 1 else 0)
  {
  }

  lemma StepKeepsInv(s: State, e: Event, p: nat, hasRegistry: bool)
    requires Inv(s, p, hasRegistry) && Enabled(s, e)
    ensures Inv(Step(s, e), p, hasRegistry)
  {
    var s' := Step(s, e);
    match e
    case Call =>
      CallsExtend(s.frames, InCall(s.a));
    case Return =>
      ReturnKeepsInv(s, p, hasRegistry);
    case _ =>
  }

  lemma ReturnKeepsInv(s: State, p: nat, hasRegistry: bool)
    requires Inv(s, p, hasRegistry) && Enabled(s, Return)
    ensures Inv(Step(s, Return), p, hasRegistry)
  {
    CallsExtend(Below(s), InDtor);
    if !s.released {
      CallsFromBottom(s.frames);
    }
  }

  // ---------------------------------------------------------------------------
  // Whole runs

  ghost predicate IsRun(ss: seq<State>, es: seq<Event>, p: nat, hasRegistry: bool) {
    && |ss| == |es| + 1 && p != 0
    && ss[0] == Start(p, hasRegistry)
    && (forall i :: 0 <= i < |es| ==> Enabled(ss[i], es[i]) && ss[i + 1] == Step(ss[i], es[i]))
  }

  lemma {:induction false} RunKeepsInv(ss: seq<State>, es: seq<Event>, p: nat, hasRegistry: bool, k: nat)
    requires IsRun(ss, es, p, hasRegistry) && k <= |es|
    ensures Inv(ss[k], p, hasRegistry)
  {
    if k > 0 {
      RunKeepsInv(ss, es, p, hasRegistry, k - 1);
      StepKeepsInv(ss[k - 1], es[k - 1], p, hasRegistry);
    }
  }

  lemma {:induction false} ReleasedStays(ss: seq<State>, es: seq<Event>, p: nat, hasRegistry: bool, i: nat, k: nat)
    requires IsRun(ss, es, p, hasRegistry) && i < k <= |es|
    requires Releases(EffectOf(ss[i], es[i]))
    ensures ss[k].released
  {
    if k > i + 1 {
      ReleasedStays(ss, es, p, hasRegistry, i, k - 1);
    }
  }

  lemma {:induction false} ReleasedHasCause(ss: seq<State>, es: seq<Event>, p: nat, hasRegistry: bool, k: nat)
    returns (i: nat)
    requires IsRun(ss, es, p, hasRegistry) && k <= |es| && ss[k].released
    ensures i < k && Releases(EffectOf(ss[i], es[i]))
  {
    if ss[k - 1].released {
      i := ReleasedHasCause(ss, es, p, hasRegistry, k - 1);
    } else {
      i := k - 1;
    }
  }

  /** In every run the environment is released at most once; nothing but its address is ever
      released; and no call after that is given a non-null address. */
  lemma ReleasedAtMostOnce(ss: seq<State>, es: seq<Event>, p: nat, hasRegistry: bool, i: nat, j: nat)
    requires IsRun(ss, es, p, hasRegistry) && i < j < |es|
    requires Releases(EffectOf(ss[i], es[i]))
    ensures EffectOf(ss[i], es[i]).ptr == p
    ensures !Releases(EffectOf(ss[j], es[j]))
    ensures es[j].Call? ==> EffectOf(ss[j], es[j]) == Run(0)
  {
    RunKeepsInv(ss, es, p, hasRegistry, i);
    ReleaseIsOfPlaced(ss[i], es[i], p, hasRegistry);
    ReleasedStays(ss, es, p, hasRegistry, i, j);
    RunKeepsInv(ss, es, p, hasRegistry, j);
    ReleaseIsOfPlaced(ss[j], es[j], p, hasRegistry);
  }

  lemma ReleaseIsOfPlaced(s: State, e: Event, p: nat, hasRegistry: bool)
    requires Inv(s, p, hasRegistry) && Enabled(s, e)
    ensures Releases(EffectOf(s, e)) ==> !s.released && EffectOf(s, e).ptr == p
    ensures e.Call? ==> EffectOf(s, e).ptr == if s.released || s.frames != [] then 0 else p
  {
  }

  /** Whenever no call is running, the environment has been released by exactly one event if Rust
      dropped the closure or the finaliser ran, and by none otherwise. */
  lemma ReleasedExactlyWhenDone(ss: seq<State>, es: seq<Event>, p: nat, hasRegistry: bool, k: nat)
    requires IsRun(ss, es, p, hasRegistry) && k <= |es| && ss[k].frames == []
    ensures (exists i :: 0 <= i < k && Releases(EffectOf(ss[i], es[i]))) <==> (CbDrop in es[..k] || Finalise in es[..k])
  {
    RunKeepsInv(ss, es, p, hasRegistry, k);
    DoneIsRecorded(ss, es, p, hasRegistry, k);
    if ss[k].released {
      var i := ReleasedHasCause(ss, es, p, hasRegistry, k);
    }
    forall i | 0 <= i < k && Releases(EffectOf(ss[i], es[i]))
      ensures ss[k].released
    {
      ReleasedStays(ss, es, p, hasRegistry, i, k);
    }
  }

  lemma StepRecords(s: State, e: Event)
    requires Enabled(s, e)
    ensures Step(s, e).dropped <==> s.dropped || e == CbDrop
    ensures Step(s, e).finalised <==> s.finalised || e == Finalise
  {
  }

  lemma {:induction false} DoneIsRecorded(ss: seq<State>, es: seq<Event>, p: nat, hasRegistry: bool, k: nat)
    requires IsRun(ss, es, p, hasRegistry) && k <= |es|
    ensures ss[k].dropped <==> CbDrop in es[..k]
    ensures ss[k].finalised <==> Finalise in es[..k]
  {
    if k > 0 {
      DoneIsRecorded(ss, es, p, hasRegistry, k - 1);
      var s, e := ss[k - 1], es[k - 1];
      assert es[..k] == es[..k - 1] + [e];
      StepRecords(s, e);
    }
  }

  /** Two activations never have the environment at the same time, and it is not released while
      one of them has it. */
  lemma EnvironmentIsExclusive(ss: seq<State>, es: seq<Event>, p: nat, hasRegistry: bool, k: nat, i: nat)
    requires IsRun(ss, es, p, hasRegistry) && k <= |es|
    requires i < |ss[k].frames| && ss[k].frames[i].InCall? && ss[k].frames[i].a != 0
    ensures i == 0 && ss[k].frames[i].a == p && ss[k].a == 0 && !ss[k].released
    ensures forall j :: 0 < j < |ss[k].frames| ==> ss[k].frames[j] == InCall(0)
  {
    RunKeepsInv(ss, es, p, hasRegistry, k);
    assert ss[k].frames[i] != InDtor && ss[k].frames[i] != InCall(0);
    forall j | 0 < j < |ss[k].frames|
      ensures ss[k].frames[j] == InCall(0)
    {
      assert ss[k].frames[j] in ss[k].frames;
    }
  }

  /** In every run a call is given the environment exactly if no other call is running and nothing has
      released it; otherwise null. */
  lemma CallIsGiven(ss: seq<State>, es: seq<Event>, p: nat, hasRegistry: bool, k: nat)
    requires IsRun(ss, es, p, hasRegistry) && k < |es| && es[k].Call?
    ensures EffectOf(ss[k], es[k]) == Run(if ss[k].frames == [] && !ss[k].released then p else 0)
    ensures ss[k].released <==> exists i :: 0 <= i < k && Releases(EffectOf(ss[i], es[i]))
  {
    RunKeepsInv(ss, es, p, hasRegistry, k);
    ReleaseIsOfPlaced(ss[k], es[k], p, hasRegistry);
    if ss[k].released {
      var i := ReleasedHasCause(ss, es, p, hasRegistry, k);
    }
    forall i | 0 <= i < k && Releases(EffectOf(ss[i], es[i]))
      ensures ss[k].released
    {
      ReleasedStays(ss, es, p, hasRegistry, i, k);
    }
  }

  /** Once a call has run the destructor and unregistered the state, or the finaliser has run, it never
      runs again. */
  lemma {:induction false} NotFinalisedAgain(ss: seq<State>, es: seq<Event>, p: nat, hasRegistry: bool, i: nat, k: nat)
    requires IsRun(ss, es, p, hasRegistry) && i < k <= |es| && (es[i].DtorDone? || es[i].Finalise?)
    ensures !ss[k].registered && !Enabled(ss[k], Finalise)
  {
    if k > i + 1 {
      NotFinalisedAgain(ss, es, p, hasRegistry, i, k - 1);
    }
  }

  /** Where there is a finalisation registry, an environment that Rust gave up and no call is using
      is released or can still be finalised, and finalising it releases it. */
  lemma NeverStranded(ss: seq<State>, es: seq<Event>, p: nat, k: nat)
    requires IsRun(ss, es, p, true) && k <= |es|
    requires !ss[k].held && ss[k].frames == [] && !ss[k].released
    ensures Enabled(ss[k], Finalise) && EffectOf(ss[k], Finalise) == Release(p)
  {
    RunKeepsInv(ss, es, p, true, k);
  }

  // ---------------------------------------------------------------------------
  // The glue's own object

  /** The state object of `makeMutClosure`, and its function cut at the point where it calls Rust. */
  class MutClosure {
    var a: nat
    var cnt: int
    var registered: bool
    ghost var env: nat
    ghost var frames: seq<Frame>
    ghost var held: bool
    ghost var dropped: bool
    ghost var finalised: bool
    ghost var released: bool

    ghost function Now(): State
      reads this
    {
      State(a, cnt, registered, env, frames, held, dropped, finalised, released)
    }

    ghost predicate Valid()
      reads this
    {
      exists hasRegistry :: Inv(Now(), env, hasRegistry)
    }

    constructor (arg0: nat, hasRegistry: bool)
      requires arg0 != 0
      ensures Valid() && Now() == Start(arg0, hasRegistry)
    {
      a, cnt, registered := arg0, 1, hasRegistry;
      env, frames, held, dropped, finalised, released := arg0, [], true, false, false, false;
      new;
      assert Inv(Now(), env, hasRegistry);
    }

    /** Bring the bookkeeping of the world up to date with what the glue just did. */
    ghost method Record(before: State, e: Event)
      requires Enabled(before, e) && before.env == env
      requires exists hasRegistry :: Inv(before, env, hasRegistry)
      requires a == Step(before, e).a && cnt == Step(before, e).cnt && registered == Step(before, e).registered
      modifies this`frames, this`held, this`dropped, this`finalised, this`released
      ensures Valid() && Now() == Step(before, e)
    {
      var after := Step(before, e);
      frames, held, dropped, finalised, released :=
        after.frames, after.held, after.dropped, after.finalised, after.released;
      var hasRegistry :| Inv(before, env, hasRegistry);
      StepKeepsInv(before, e, env, hasRegistry);
      assert Now() == after;
      assert Inv(Now(), env, hasRegistry);
    }

    /** Up to the call of `f`, which is given the result. */
    method Enter() returns (saved: nat)
      requires Valid() && Enabled(Now(), Call)
      modifies this
      ensures Valid() && Now() == Step(old(Now()), Call)
      ensures Run(saved) == EffectOf(old(Now()), Call)
      ensures Top(Now()) == InCall(saved)
    {
      ghost var before := Now();
      cnt := cnt + 1;
      saved := a;
      a := 0;
      Record(before, Call);
    }

    /** From the return of `f`, normal or not; `saved` is the activation's own variable.  The
        result says whether the destructor is called, and with which address. */
    method Leave(saved: nat) returns (f: Effect)
      requires Valid() && Enabled(Now(), Return) && Top(Now()) == InCall(saved)
      modifies this
      ensures Valid() && Now() == Step(old(Now()), Return)
      ensures f == EffectOf(old(Now()), Return)
    {
      ghost var before := Now();
      cnt := cnt - 1;
      if cnt == 0 {
        f := Release(saved);
      } else {
        f := Silent;
        a := saved;
      }
      Record(before, Return);
    }

    /** After the destructor. */
    method Unregister()
      requires Valid() && Enabled(Now(), DtorDone)
      modifies this
      ensures Valid() && Now() == Step(old(Now()), DtorDone)
    {
      ghost var before := Now();
      registered := false;
      Record(before, DtorDone);
    }

    /** `__wbindgen_cb_drop`; on true Rust releases the environment. */
    method CallbackDrop() returns (last: bool)
      requires Valid() && Enabled(Now(), CbDrop)
      modifies this
      ensures Valid() && Now() == Step(old(Now()), CbDrop)
      ensures last <==> EffectOf(old(Now()), CbDrop) == Release(env)
    {
      ghost var before := Now();
      last := cnt == 1;
      cnt := cnt - 1;
      if last {
        a := 0;
      }
      Record(before, CbDrop);
    }

    /** The callback of the finalisation registry. */
    method Finalised() returns (f: Effect)
      requires Valid() && Enabled(Now(), Finalise)
      modifies this
      ensures Valid() && Now() == Step(old(Now()), Finalise)
      ensures f == EffectOf(old(Now()), Finalise)
    {
      ghost var before := Now();
      f := Release(a);
      registered := false;
      Record(before, Finalise);
    }
  }
}
