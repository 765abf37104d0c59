/**
 Reading strings back, and handing several strings to one call.
 */
module StringArguments {
  import opened Wrappers
  import opened Utf
  import opened WasmMemory
  import opened StringMarshalling

  // ---------------------------------------------------------------------------
  // Reading

  /** `subarray(p, p + len)`: both ends are clamped to the view. */
  function Subarray(bytes: seq<Byte>, p: nat, len: nat): seq<Byte> {
    var from := if p < |bytes| then p else |bytes|;
    var to := if p + len < |bytes| then p + len else |bytes|;
    bytes[from..to]
  }

  /** Whatever the address and the length: the bytes between the two ends that lie inside. */
  lemma SubarrayIsClamped(bytes: seq<Byte>, p: nat, len: nat)
    ensures var s := Subarray(bytes, p, len);
      && |s| == (if p + len <= |bytes| then len else if p <= |bytes| then |bytes| - p else 0)
      && forall i :: 0 <= i < |s| ==> s[i] == bytes[p + i]
  {
  }

  /** None where the strict decoder throws. */
  method GetStringFromWasm0(w: Wasm, raw: int, len: nat) returns (s: Option<seq<CodeUnit>>)
    requires w.Valid()
    modifies w`cachedUint8Memory0
    ensures w.Valid()
    ensures s == Decode(Subarray(w.Mem().bytes, ToUint32(raw), len))
  {
    var ptr := ToUint32(raw);
    var view := w.GetUint8Memory0();
    var n := ByteLength(view);
    var from := if ptr < n then ptr else n;
    var to := if ptr + len < n then ptr + len else n;
    assert view.buffer.data[from..to] == Subarray(w.Mem().bytes, ptr, len);
    s := Decode(view.buffer.data[from..to]);
  }

  /** The bytes of a string that was passed, as the reader finds them, whatever the length. */
  lemma PassedBytes(m: Memory, m': Memory, ptr: nat, len: nat, arg: JsString)
    requires Passed(m, m', ptr, len, arg)
    ensures ToUint32(ptr) == ptr && Subarray(m'.bytes, ptr, len) == Encode(arg)
  {
    EncodedLength(arg);
  }

  /** A string that was passed reads back with its unpaired surrogates replaced by U+FFFD;
      so it reads back unchanged exactly when it has none. */
  lemma PassThenRead(m: Memory, m': Memory, ptr: nat, len: nat, arg: JsString)
    requires Passed(m, m', ptr, len, arg)
    ensures Decode(Subarray(m'.bytes, ToUint32(ptr), len)) == Some(Sanitized(arg))
    ensures Decode(Subarray(m'.bytes, ToUint32(ptr), len)) == Some(arg) <==> WellFormed(arg)
  {
    PassedBytes(m, m', ptr, len, arg);
    DecodeEncode(arg);
    SanitizedIsIdentityIffWellFormed(arg);
  }

  /** The two operations one after the other, for every string: unless the allocator traps, the
      reader does not throw, and returns the string with its unpaired surrogates replaced. */
  method PassAndRead(w: Wasm, arg: JsString, hasRealloc: bool, hasEncodeInto: bool) returns (s: Option<seq<CodeUnit>>)
    requires w.Valid() && !w.trapped
    modifies w`buffer, w`regions, w`trapped, w`cachedUint8Memory0, w`wasmVectorLen, w.buffer, w.buffer.data
    ensures w.Valid()
    ensures s == if w.trapped then None else Some(Sanitized(arg))
    ensures !w.trapped ==> (s == Some(arg) <==> WellFormed(arg))
  {
    ghost var before := w.Mem();
    var ptr := PassStringToWasm0(w, arg, hasRealloc, hasEncodeInto);
    if ptr.None? {
      return None;
    }
    PassThenRead(before, w.Mem(), ptr.value, w.wasmVectorLen, arg);
    s := GetStringFromWasm0(w, ptr.value, w.wasmVectorLen);
  }

  /** The path with `realloc` and the one without leave the same bytes and the same length. */
  lemma PathsAgree(m1: Memory, m1': Memory, p1: nat, len1: nat, m2: Memory, m2': Memory, p2: nat, len2: nat,
                   arg: JsString)
    requires Passed(m1, m1', p1, len1, arg) && Passed(m2, m2', p2, len2, arg)
    ensures len1 == len2
    ensures Subarray(m1'.bytes, p1, len1) == Subarray(m2'.bytes, p2, len2)
  {
    PassedBytes(m1, m1', p1, len1, arg);
    PassedBytes(m2, m2', p2, len2, arg);
  }

  // ---------------------------------------------------------------------------
  // Several arguments

  /** Argument number `i`, as it lies in memory when the call is made.  The null address means that it
      is absent, and nothing else; the length that goes with it is whatever the variable still holds. */
  ghost predicate Delivered(m: Memory, args: seq<Option<JsString>>, pairs: seq<(nat, nat)>, i: nat)
    requires i < |args| == |pairs|
  {
    match args[i]
    case None => pairs[i].0 == 0 && (i > 0 ==> pairs[i].1 == pairs[i - 1].1)
    case Some(s) => pairs[i].0 != 0 && pairs[i].1 == |Encode(s)| && Holds(m, pairs[i].0, Encode(s))
  }

  predicate TakesSpace(arg: Option<JsString>) {
    arg.Some? && arg.value != []
  }

  ghost predicate Distinct(args: seq<Option<JsString>>, pairs: seq<(nat, nat)>, i: nat, j: nat)
    requires i < |args| == |pairs| && j < |args|
  {
    TakesSpace(args[i]) && TakesSpace(args[j]) ==> pairs[i].0 != pairs[j].0
  }

  /** Every argument is delivered, and no two of them share memory. */
  ghost predicate AllDelivered(m: Memory, args: seq<Option<JsString>>, pairs: seq<(nat, nat)>) {
    && |args| == |pairs|
    && (forall i {:trigger Delivered(m, args, pairs, i)} :: 0 <= i < |args| ==> Delivered(m, args, pairs, i))
    && (forall i, j {:trigger Distinct(args, pairs, i, j)} :: 0 <= i < j < |args| ==> Distinct(args, pairs, i, j))
  }

  /** One more argument does not disturb the earlier ones. */
  lemma DeliveredExtends(m: Memory, m': Memory, args: seq<Option<JsString>>, pairs: seq<(nat, nat)>,
                         arg: Option<JsString>, ptr: nat, len: nat)
    requires AllDelivered(m, args, pairs) && Keeps(m, m')
    requires arg.Some? ==> Passed(m, m', ptr, len, arg.value)
    requires arg.None? ==> ptr == 0 && (pairs != [] ==> len == pairs[|pairs| - 1].1)
    ensures AllDelivered(m', args + [arg], pairs + [(ptr, len)])
  {
    var args', pairs', n := args + [arg], pairs + [(ptr, len)], |args|;
    forall i | 0 <= i < |args'|
      ensures Delivered(m', args', pairs', i)
      ensures i < n && TakesSpace(args[i]) && TakesSpace(arg) ==> pairs[i].0 != ptr
    {
      if i < n {
        assert args'[i] == args[i] && Delivered(m, args, pairs, i);
        if TakesSpace(args[i]) {
          EncodedLength(args[i].value);
          KeepsHeld(m, m', pairs[i].0, Encode(args[i].value));
        }
      }
    }
    forall i, j | 0 <= i < j < |args'|
      ensures Distinct(args', pairs', i, j)
    {
      assert args'[i] == args[i];
      assert j < n ==> Distinct(args, pairs, i, j);
    }
  }

  /** `isLikeNone(x) ? 0 : passStringToWasm0(x, ...)`, then the length read straight afterwards. */
  method PassNext(w: Wasm, arg: Option<JsString>, hasEncodeInto: bool, ghost m: Memory,
                  ghost args: seq<Option<JsString>>, pairs: seq<(nat, nat)>)
      returns (r: Option<seq<(nat, nat)>>)
    requires w.Valid() && !w.trapped && Keeps(m, w.Mem()) && AllDelivered(w.Mem(), args, pairs)
    requires pairs != [] ==> w.wasmVectorLen == pairs[|pairs| - 1].1
    modifies w`buffer, w`regions, w`trapped, w`cachedUint8Memory0, w`wasmVectorLen, w.buffer, w.buffer.data
    ensures r.None? <==> w.trapped
    ensures w.Valid() && (w.buffer == old(w.buffer) || (fresh(w.buffer) && fresh(w.buffer.data)))
    ensures Keeps(m, w.Mem())
    ensures r.Some? ==>
      && AllDelivered(w.Mem(), args + [arg], r.value)
      && w.wasmVectorLen == r.value[|r.value| - 1].1
  {
    ghost var before := w.Mem();
    var ptr := 0;
    if arg.Some? {
      var passed := PassStringToWasm0(w, arg.value, true, hasEncodeInto);
      KeepsTransitive(m, before, w.Mem());
      if passed.None? {
        return None;
      }
      ptr := passed.value;
    }
    var len := w.wasmVectorLen;
    DeliveredExtends(before, w.Mem(), args, pairs, arg, ptr, len);
    return Some(pairs + [(ptr, len)]);
  }

  /** Three more arguments. */
  method PassThree(w: Wasm, a: Option<JsString>, b: Option<JsString>, c: Option<JsString>, hasEncodeInto: bool,
                   ghost m: Memory, ghost args: seq<Option<JsString>>, pairs: seq<(nat, nat)>)
      returns (r: Option<seq<(nat, nat)>>)
    requires w.Valid() && !w.trapped && Keeps(m, w.Mem()) && AllDelivered(w.Mem(), args, pairs)
    requires pairs != [] ==> w.wasmVectorLen == pairs[|pairs| - 1].1
    modifies w`buffer, w`regions, w`trapped, w`cachedUint8Memory0, w`wasmVectorLen, w.buffer, w.buffer.data
    ensures r.None? <==> w.trapped
    ensures w.Valid() && (w.buffer == old(w.buffer) || (fresh(w.buffer) && fresh(w.buffer.data)))
    ensures Keeps(m, w.Mem())
    ensures r.Some? ==> AllDelivered(w.Mem(), args + [a] + [b] + [c], r.value)
  {
    r := PassNext(w, a, hasEncodeInto, m, args, pairs);
    if r.Some? {
      r := PassNext(w, b, hasEncodeInto, m, args + [a], r.value);
      if r.Some? {
        r := PassNext(w, c, hasEncodeInto, m, args + [a] + [b], r.value);
      }
    }
  }

  /** The arguments of `deploystrparams_new`, at the moment of that call. */
  method NewDeployStrParams(w: Wasm, chainName: JsString, sessionAccount: JsString, secretKey: Option<JsString>,
                            timestamp: Option<JsString>, ttl: Option<JsString>, hasEncodeInto: bool)
      returns (r: Option<seq<(nat, nat)>>)
    requires w.Valid() && !w.trapped
    modifies w`buffer, w`regions, w`trapped, w`cachedUint8Memory0, w`wasmVectorLen, w.buffer, w.buffer.data
    ensures r.None? <==> w.trapped
    ensures w.Valid() && (w.buffer == old(w.buffer) || (fresh(w.buffer) && fresh(w.buffer.data)))
    ensures Keeps(old(w.Mem()), w.Mem())
    ensures r.Some? ==>
      AllDelivered(w.Mem(), [Some(chainName), Some(sessionAccount), secretKey, timestamp, ttl], r.value)
  {
    ghost var m := w.Mem();
    ghost var none: seq<Option<JsString>> := [];
    ghost var one := none + [Some(chainName)];
    ghost var two := one + [Some(sessionAccount)];
    assert two + [secretKey] + [timestamp] + [ttl] ==
      [Some(chainName), Some(sessionAccount), secretKey, timestamp, ttl];
    r := PassNext(w, Some(chainName), hasEncodeInto, m, none, []);
    if r.Some? {
      r := PassNext(w, Some(sessionAccount), hasEncodeInto, m, one, r.value);
      if r.Some? {
        r := PassThree(w, secretKey, timestamp, ttl, hasEncodeInto, m, two, r.value);
      }
    }
  }
}
