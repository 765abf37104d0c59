/**
 Handing arrays of JavaScript objects to wasm and taking them back: the objects go
 into the object table and their handles, four bytes each, into memory.
 */
module ArrayMarshalling {
  import opened Sequences
  import opened Wrappers
  import opened Utf
  import opened WasmMemory
  import opened HandleSlab
  import StringMarshalling

  // ---------------------------------------------------------------------------
  // Handles in memory

  /** The handles that lie in memory from `ptr`. */
  function HandlesAt(bytes: seq<Byte>, ptr: nat, len: nat): (hs: seq<nat>)
    requires ptr + 4 * len <= |bytes|
    ensures |hs| == len && forall i :: 0 <= i < len ==> hs[i] == WordAt(bytes, ptr + 4 * i)
  {
    seq(len, i requires 0 <= i < len => WordAt(bytes, ptr + 4 * i))
  }

  /** `subarray(ptr / 4, ptr / 4 + len)` of the view of 32-bit numbers: fractions are cut off and both
      ends are clamped to the view. */
  function HandlesRead(bytes: seq<Byte>, ptr: nat, len: nat): seq<nat> {
    var n := |bytes| / 4;
    var from := if ptr / 4 < n then ptr / 4 else n;
    var to := if ptr / 4 + len < n then ptr / 4 + len else n;
    HandlesAt(bytes, 4 * from, to - from)
  }

  lemma ReadInside(bytes: seq<Byte>, ptr: nat, len: nat)
    requires len > 0 ==> ptr % 4 == 0 && ptr + 4 * len <= |bytes|
    ensures HandlesRead(bytes, ptr, len) == if len == 0 then [] else HandlesAt(bytes, ptr, len)
  {
  }

  /** What is read from a view of 32-bit numbers, whatever the address and the length: the whole numbers
      between the two ends that lie inside. */
  lemma ReadIsClamped(bytes: seq<Byte>, ptr: nat, len: nat)
    ensures var hs, first, n := HandlesRead(bytes, ptr, len), ptr / 4, |bytes| / 4;
      && |hs| == (if first + len <= n then len else if first <= n then n - first else 0)
      && forall i :: 0 <= i < |hs| ==> hs[i] == WordAt(bytes, 4 * first + 4 * i)
  {
    var hs, first, n := HandlesRead(bytes, ptr, len), ptr / 4, |bytes| / 4;
    if first < n {
      var to := if first + len < n then first + len else n;
      assert hs == HandlesAt(bytes, 4 * first, to - first);
    }
  }

  lemma WordOfPrefix(bytes: seq<Byte>, bytes': seq<Byte>, at: nat, i: nat)
    requires i + 4 <= at <= |bytes| == |bytes'| && bytes'[..at] == bytes[..at]
    ensures WordAt(bytes', i) == WordAt(bytes, i)
  {
    forall k | i <= k < i + 4
      ensures bytes'[k] == bytes[k]
    {
      assert bytes'[k] == bytes'[..at][k];
    }
  }

  /** Writing the next handle behind the others leaves those as they were. */
  lemma HandlesExtend(bytes: seq<Byte>, bytes': seq<Byte>, ptr: nat, hs: seq<nat>, h: nat)
    requires ptr + 4 * |hs| + 4 <= |bytes| == |bytes'| && HandlesAt(bytes, ptr, |hs|) == hs
    requires var at := ptr + 4 * |hs|; bytes'[..at] == bytes[..at] && WordAt(bytes', at) == h
    ensures HandlesAt(bytes', ptr, |hs| + 1) == hs + [h]
  {
    var at, hs' := ptr + 4 * |hs|, HandlesAt(bytes', ptr, |hs| + 1);
    forall i | 0 <= i < |hs|
      ensures hs'[i] == hs[i]
    {
      assert hs[i] == WordAt(bytes, ptr + 4 * i);
      WordOfPrefix(bytes, bytes', at, ptr + 4 * i);
    }
  }

  // ---------------------------------------------------------------------------
  // Handles in the table

  /** The live handles after each object of `objs` was bound to its handle. */
  function Bound(live: map<nat, JsValue>, hs: seq<nat>, objs: seq<JsValue>): map<nat, JsValue>
    requires |hs| == |objs|
  {
    if hs == [] then live
    else
      var n := |hs| - 1;
      Bound(live, hs[..n], objs[..n])[hs[n] := objs[n]]
  }

  /** Handles nobody held before, all different. */
  ghost predicate New(live: map<nat, JsValue>, hs: seq<nat>) {
    && (forall i :: 0 <= i < |hs| ==> RESERVED <= hs[i] && hs[i] !in live)
    && NoDuplicates(hs)
  }

  lemma BoundExtends(live: map<nat, JsValue>, hs: seq<nat>, objs: seq<JsValue>, h: nat, obj: JsValue)
    requires |hs| == |objs|
    ensures Bound(live, hs + [h], objs + [obj]) == Bound(live, hs, objs)[h := obj]
  {
    assert (hs + [h])[..|hs|] == hs && (objs + [obj])[..|objs|] == objs;
  }

  lemma {:induction false} BoundKeys(live: map<nat, JsValue>, hs: seq<nat>, objs: seq<JsValue>)
    requires |hs| == |objs|
    ensures Bound(live, hs, objs).Keys == live.Keys + set h | h in hs
  {
    if hs != [] {
      var n := |hs| - 1;
      BoundKeys(live, hs[..n], objs[..n]);
      assert hs == hs[..n] + [hs[n]];
    }
  }

  /** New handles are bound to their objects, old ones to what they were bound to before. */
  lemma {:induction false} BoundLookup(live: map<nat, JsValue>, hs: seq<nat>, objs: seq<JsValue>)
    requires |hs| == |objs| && New(live, hs)
    ensures forall i :: 0 <= i < |hs| ==> hs[i] in Bound(live, hs, objs) && Bound(live, hs, objs)[hs[i]] == objs[i]
    ensures forall h :: h in live ==> h in Bound(live, hs, objs) && Bound(live, hs, objs)[h] == live[h]
  {
    if hs != [] {
      var n := |hs| - 1;
      BoundLookup(live, hs[..n], objs[..n]);
      assert hs == hs[..n] + [hs[n]] && objs == objs[..n] + [objs[n]];
    }
  }

  /** The table's handles while the first of `objs` are stored. */
  ghost predicate Stored(live: map<nat, JsValue>, live': map<nat, JsValue>, hs: seq<nat>, objs: seq<JsValue>) {
    |hs| == |objs| && New(live, hs) && live' == Bound(live, hs, objs)
  }

  lemma StoredExtends(live: map<nat, JsValue>, live': map<nat, JsValue>, hs: seq<nat>, objs: seq<JsValue>,
                      h: nat, obj: JsValue)
    requires Stored(live, live', hs, objs)
    requires RESERVED <= h && h !in live'
    ensures Stored(live, live'[h := obj], hs + [h], objs + [obj])
  {
    BoundKeys(live, hs, objs);
    BoundExtends(live, hs, objs, h, obj);
    assert h !in live && h !in hs;
    NewExtends(live, hs, h);
  }

  lemma NewExtends(live: map<nat, JsValue>, hs: seq<nat>, h: nat)
    requires New(live, hs) && RESERVED <= h && h !in live && h !in hs
    ensures New(live, hs + [h])
  {
  }

  /** Handles wasm may give up together: each a constant, or live and given once. */
  ghost predicate Takeable(live: map<nat, JsValue>, hs: seq<nat>) {
    && (forall i :: 0 <= i < |hs| ==> hs[i] < RESERVED || hs[i] in live)
    && (forall i, j :: 0 <= i < j < |hs| && RESERVED <= hs[i] ==> hs[i] != hs[j])
  }

  /** What taking the handles in order returns. */
  function Objects(live: map<nat, JsValue>, hs: seq<nat>): (objs: seq<JsValue>)
    requires forall i :: 0 <= i < |hs| ==> hs[i] < RESERVED || hs[i] in live
    ensures |objs| == |hs|
  {
    seq(|hs|, i requires 0 <= i < |hs| => Lookup(live, hs[i]))
  }

  /** The handles that stay live. */
  function Remaining(live: map<nat, JsValue>, hs: seq<nat>): map<nat, JsValue> {
    if hs == [] then live else Remaining(live, hs[..|hs| - 1]) - {hs[|hs| - 1]}
  }

  lemma {:induction false} RemainingIsRest(live: map<nat, JsValue>, hs: seq<nat>)
    ensures Remaining(live, hs) == live - (set h | h in hs)
  {
    if hs != [] {
      RemainingIsRest(live, hs[..|hs| - 1]);
      assert hs == hs[..|hs| - 1] + [hs[|hs| - 1]];
    }
  }

  /** The objects of `hs` were taken, and nothing else changed. */
  ghost predicate Taken(live: map<nat, JsValue>, live': map<nat, JsValue>, hs: seq<nat>, objs: seq<JsValue>) {
    Takeable(live, hs) && objs == Objects(live, hs) && live' == Remaining(live, hs)
  }

  /** The next handle is still there, and stands for what it stood for at the start. */
  lemma TakeNext(live: map<nat, JsValue>, hs: seq<nat>, i: nat)
    requires Takeable(live, hs) && i < |hs|
    ensures hs[i] < RESERVED || hs[i] in Remaining(live, hs[..i])
    ensures Objects(live, hs)[..i + 1] == Objects(live, hs)[..i] + [Lookup(Remaining(live, hs[..i]), hs[i])]
    ensures Remaining(live, hs[..i]) - {hs[i]} == Remaining(live, hs[..i + 1])
  {
    RemainingIsRest(live, hs[..i]);
    assert hs[..i + 1][..i] == hs[..i];
  }

  /** What a 32-bit cell keeps of each handle; all of it while the table has no more than 2^32 cells. */
  function Truncated(hs: seq<nat>): (ts: seq<nat>)
    ensures |ts| == |hs|
  {
    seq(|hs|, i requires 0 <= i < |hs| => ToUint32(hs[i]))
  }

  lemma TruncatedExtends(hs: seq<nat>, h: nat)
    ensures Truncated(hs + [h]) == Truncated(hs) + [ToUint32(h)]
  {
  }

  /** Handles that read back from an aligned address lie there one after the other, four bytes each, the
      lowest first. */
  lemma HandleBytes(bytes: seq<Byte>, ptr: nat, hs: seq<nat>, i: nat)
    requires ptr % 4 == 0 && i < |hs| && HandlesRead(bytes, ptr, |hs|) == Truncated(hs)
    ensures var at := ptr + 4 * i;
      && at + 4 <= |bytes|
      && bytes[at] == hs[i] % 0x100 && bytes[at + 1] == hs[i] / 0x100 % 0x100
      && bytes[at + 2] == hs[i] / 0x1_0000 % 0x100 && bytes[at + 3] == hs[i] / 0x100_0000 % 0x100
  {
    ReadIsClamped(bytes, ptr, |hs|);
    assert |HandlesRead(bytes, ptr, |hs|)| == |hs|;
    var at := ptr + 4 * i;
    assert 4 * (ptr / 4) + 4 * i == at;
    WordIsLittleEndian(bytes, at);
    assert Truncated(hs)[i] == WordAt(bytes, at);
    LowBytes(hs[i]);
  }

  lemma LowBytes(h: nat)
    ensures var w := ToUint32(h);
      && w % 0x100 == h % 0x100 && w / 0x100 % 0x100 == h / 0x100 % 0x100
      && w / 0x1_0000 % 0x100 == h / 0x1_0000 % 0x100 && w / 0x100_0000 == h / 0x100_0000 % 0x100
  {
    var q, w := h / 0x1_0000_0000, ToUint32(h);
    LowByte(h, w, q * 0x100_0000);
    LowByte(h / 0x100, w / 0x100, q * 0x1_0000);
    LowByte(h / 0x100 / 0x100, w / 0x100 / 0x100, q * 0x100);
    LowByte(h / 0x100 / 0x100 / 0x100, w / 0x100 / 0x100 / 0x100, q);
    ByteCascade(h);
    ByteCascade(w);
  }

  lemma LowByte(h: nat, w: nat, r: nat)
    requires h == w + r * 0x100
    ensures h % 0x100 == w % 0x100 && h / 0x100 == w / 0x100 + r
  {
  }

  /** Taking back what was just passed returns the same objects in the same order, duplicates
      included, and leaves exactly the handles that were live before, with their objects. */
  lemma PassThenTake(read: seq<nat>, live: map<nat, JsValue>, live': map<nat, JsValue>, hs: seq<nat>,
                     objs: seq<JsValue>)
    requires Stored(live, live', hs, objs) && read == Truncated(hs)
    requires forall h :: h in live' ==> h < ADDRESS_SPACE
    ensures Takeable(live', read) && Objects(live', read) == objs && Remaining(live', read) == live
  {
    BoundLookup(live, hs, objs);
    BoundKeys(live, hs, objs);
    assert read == hs;
    RemainingIsRest(live', hs);
  }

  // ---------------------------------------------------------------------------
  // Passing an array

  /** The memory with a region of `size` cells at `ptr` that is new since `m`, if it needs one. */
  ghost predicate Allocated(m: Memory, m': Memory, ptr: nat, size: nat) {
    && Keeps(m, m') && 0 < ptr < ADDRESS_SPACE
    && (if size == 0 then m'.regions == m.regions else ptr !in m.regions && m'.regions == m.regions[ptr := size])
  }

  /** Memory's part: room for `n` numbers, and a view taken after it was made. */
  method AllocateWords(w: Wasm, n: nat) returns (ptr: Option<nat>, mem: View)
    requires w.Valid() && !w.trapped && 4 * n < ADDRESS_SPACE
    modifies w`buffer, w`regions, w`trapped, w`cachedUint32Memory0, w.buffer, w.buffer.data
    ensures ptr.None? <==> w.trapped
    ensures w.Valid() && mem.buffer == w.buffer
    ensures w.buffer == old(w.buffer) || (fresh(w.buffer) && fresh(w.buffer.data))
    ensures ptr.None? ==> Keeps(old(w.Mem()), w.Mem())
    ensures ptr.Some? ==> ptr.value % 4 == 0 && Allocated(old(w.Mem()), w.Mem(), ptr.value, 4 * n)
  {
    var raw := w.Malloc(n * 4, 4);
    mem := w.GetUint32Memory0();
    ptr := if raw.Some? then Some(ToUint32(raw.value)) else None;
  }

  method PassArrayJsValueToWasm0(w: Wasm, table: ObjectTable, objs: seq<JsValue>)
      returns (r: Option<nat>, ghost handles: seq<nat>)
    requires w.Valid() && !w.trapped && table.Valid()
    requires 4 * |objs| < ADDRESS_SPACE
    modifies w`buffer, w`regions, w`trapped, w`cachedUint32Memory0, w`wasmVectorLen, w.buffer, w.buffer.data, table
    ensures r.None? <==> w.trapped
    ensures w.Valid() && table.Valid()
    ensures w.buffer == old(w.buffer) || (fresh(w.buffer) && fresh(w.buffer.data))
    ensures r.None? ==> Keeps(old(w.Mem()), w.Mem()) && table.live == old(table.live)
    ensures r.Some? ==>
      && w.wasmVectorLen == |objs| && r.value % 4 == 0
      && Allocated(old(w.Mem()), w.Mem(), r.value, 4 * |objs|)
      && Stored(old(table.live), table.live, handles, objs) && |table.heap| <= old(|table.heap|) + |objs|
      && HandlesRead(w.Mem().bytes, r.value, |objs|) == Truncated(handles)
  {
    var mem;
    handles := [];
    r, mem := AllocateWords(w, |objs|);
    if r.Some? {
      handles := StoreInRegion(w, mem, table, objs, r.value, old(w.Mem()));
      w.wasmVectorLen := |objs|;
    }
  }

  /** The loop, and what it leaves as it was. */
  method StoreInRegion(w: Wasm, mem: View, table: ObjectTable, objs: seq<JsValue>, ptr: nat, ghost m: Memory)
      returns (ghost handles: seq<nat>)
    requires w.Valid() && mem.buffer == w.buffer && table.Valid()
    requires Allocated(m, w.Mem(), ptr, 4 * |objs|) && ptr % 4 == 0
    modifies mem.buffer.data, table
    ensures w.Valid() && Allocated(m, w.Mem(), ptr, 4 * |objs|)
    ensures table.Valid() && |table.heap| <= old(|table.heap|) + |objs|
    ensures Stored(old(table.live), table.live, handles, objs)
    ensures HandlesRead(w.Mem().bytes, ptr, |objs|) == Truncated(handles)
  {
    handles := [];
    if objs != [] {
      ghost var before := w.Mem();
      assert ptr in before.regions;
      handles := StoreHandles(mem, table, objs, ptr / 4);
      OwnRegionWritten(m, before, w.Mem(), ptr);
    }
    ReadInside(w.Mem().bytes, ptr, |objs|);
  }

  /** A region that is new since `m` may be written without disturbing what was there. */
  lemma OwnRegionWritten(m: Memory, before: Memory, m': Memory, ptr: nat)
    requires ValidMemory(before) && Keeps(m, before) && ptr in before.regions && ptr !in m.regions
    requires before.regions == m'.regions && |before.bytes| == |m'.bytes|
    requires var end := ptr + before.regions[ptr];
      && end <= |m'.bytes|
      && m'.bytes[..ptr] == before.bytes[..ptr] && m'.bytes[end..] == before.bytes[end..]
    ensures ValidMemory(m') && Keeps(m, m')
  {
    OwnCellsUnused(before, ptr, ptr, before.regions[ptr]);
    WithoutIsValid(before, ptr);
    WriteKeeps(Without(before, ptr), Without(m', ptr), ptr, before.regions[ptr]);
    StringMarshalling.KeepsWithoutNew(m, before, ptr);
    KeepsTransitive(m, Without(before, ptr), Without(m', ptr));
    WithoutIsValid(m', ptr);
    KeepsTransitive(m, Without(m', ptr), m');
  }

  /** What the loop has stored so far: `i` numbers from `4 * base`, and nothing outside the region. */
  ghost predicate Filled(before: seq<Byte>, bytes: seq<Byte>, base: nat, end: nat, hs: seq<nat>) {
    && |bytes| == |before| && 4 * base + 4 * |hs| <= end <= |bytes|
    && HandlesAt(bytes, 4 * base, |hs|) == Truncated(hs)
    && bytes[..4 * base] == before[..4 * base] && bytes[end..] == before[end..]
  }

  method StoreHandles(mem: View, table: ObjectTable, objs: seq<JsValue>, base: nat) returns (ghost handles: seq<nat>)
    requires table.Valid()
    requires !mem.buffer.detached && 4 * base + 4 * |objs| <= mem.buffer.data.Length
    modifies mem.buffer.data, table
    ensures table.Valid() && |table.heap| <= old(|table.heap|) + |objs|
    ensures Stored(old(table.live), table.live, handles, objs)
    ensures Filled(old(mem.buffer.data[..]), mem.buffer.data[..], base, 4 * base + 4 * |objs|, handles)
  {
    ghost var live, before, end := table.live, mem.buffer.data[..], 4 * base + 4 * |objs|;
    handles := [];
    var i := 0;
    while i < |objs|
      invariant i == |handles| <= |objs|
      invariant table.Valid() && |table.heap| <= old(|table.heap|) + i
      invariant Stored(live, table.live, handles, objs[..i])
      invariant Filled(before, mem.buffer.data[..], base, end, handles)
    {
      ghost var live' := table.live;
      var idx := table.AddHeapObject(objs[i]);
      StoredExtends(live, live', handles, objs[..i], idx, objs[i]);
      assert objs[..i + 1] == objs[..i] + [objs[i]];
      StoreHandle(mem, base, i, idx, before, end, handles);
      handles := handles + [idx];
      i := i + 1;
    }
    assert objs[..i] == objs;
  }

  /** `mem[base + i] = handle`. */
  method StoreHandle(mem: View, base: nat, i: nat, handle: nat, ghost before: seq<Byte>, ghost end: nat,
                     ghost handles: seq<nat>)
    requires !mem.buffer.detached && |handles| == i && 4 * (base + i) + 4 <= end
    requires Filled(before, mem.buffer.data[..], base, end, handles)
    modifies mem.buffer.data
    ensures Filled(before, mem.buffer.data[..], base, end, handles + [handle])
  {
    ghost var bytes := mem.buffer.data[..];
    SetWord(mem, base + i, handle);
    FilledExtends(before, bytes, mem.buffer.data[..], base, end, handles, handle);
  }

  lemma FilledExtends(before: seq<Byte>, bytes: seq<Byte>, bytes': seq<Byte>, base: nat, end: nat, hs: seq<nat>, h: nat)
    requires Filled(before, bytes, base, end, hs) && 4 * (base + |hs|) + 4 <= end && |bytes'| == |bytes|
    requires var at := 4 * (base + |hs|);
      WordAt(bytes', at) == ToUint32(h) && bytes'[..at] == bytes[..at] && bytes'[at + 4..] == bytes[at + 4..]
    ensures Filled(before, bytes', base, end, hs + [h])
  {
    var at := 4 * (base + |hs|);
    HandlesExtend(bytes, bytes', 4 * base, Truncated(hs), ToUint32(h));
    TruncatedExtends(hs, h);
    assert bytes'[..4 * base] == bytes'[..at][..4 * base] && bytes[..4 * base] == bytes[..at][..4 * base];
    assert bytes'[end..] == bytes'[at + 4..][end - at - 4..] && bytes[end..] == bytes[at + 4..][end - at - 4..];
  }

  // ---------------------------------------------------------------------------
  // Taking an array

  method GetArrayJsValueFromWasm0(w: Wasm, table: ObjectTable, raw: int, len: nat) returns (result: seq<JsValue>)
    requires w.Valid() && table.Valid()
    requires Takeable(table.live, HandlesRead(w.Mem().bytes, ToUint32(raw), len))
    modifies w`cachedUint32Memory0, table
    ensures w.Valid() && table.Valid()
    ensures Taken(old(table.live), table.live, HandlesRead(w.Mem().bytes, ToUint32(raw), len), result)
    ensures |table.heap| == old(|table.heap|)
  {
    var mem := w.GetUint32Memory0();
    var slice := HandlesRead(mem.buffer.data[..], ToUint32(raw), len);
    result := TakeHandles(table, slice);
  }

  /** The loop that takes the object of each handle in the slice. */
  method TakeHandles(table: ObjectTable, slice: seq<nat>) returns (result: seq<JsValue>)
    requires table.Valid() && Takeable(table.live, slice)
    modifies table
    ensures table.Valid()
    ensures Taken(old(table.live), table.live, slice, result)
    ensures |table.heap| == old(|table.heap|)
  {
    ghost var live := table.live;
    result := [];
    var i := 0;
    while i < |slice|
      invariant i == |result| <= |slice|
      invariant table.Valid() && |table.heap| == old(|table.heap|)
      invariant table.live == Remaining(live, slice[..i])
      invariant result == Objects(live, slice)[..i]
    {
      TakeNext(live, slice, i);
      var obj := table.TakeObject(slice[i]);
      result := result + [obj];
      i := i + 1;
    }
    assert slice[..i] == slice;
  }

  // ---------------------------------------------------------------------------
  // There and back

  /** The two operations one after the other, for every array, the empty one included: unless the
      allocator traps, the same sequence comes back, and the live handles and all older regions are
      what they were.  The table must stay within the 2^32 cells a handle can name. */
  method PassAndTake(w: Wasm, table: ObjectTable, objs: seq<JsValue>) returns (back: Option<seq<JsValue>>)
    requires w.Valid() && !w.trapped && table.Valid()
    requires 4 * |objs| < ADDRESS_SPACE && |table.heap| + |objs| <= ADDRESS_SPACE
    modifies w`buffer, w`regions, w`trapped, w`cachedUint32Memory0, w`wasmVectorLen, w.buffer, w.buffer.data, table
    ensures w.Valid() && table.Valid()
    ensures back == if w.trapped then None else Some(objs)
    ensures table.live == old(table.live)
    ensures Keeps(old(w.Mem()), w.Mem())
  {
    ghost var live := table.live;
    var ptr, handles := PassArrayJsValueToWasm0(w, table, objs);
    if ptr.None? {
      return None;
    }
    AddressIsUint32(ptr.value);
    table.HandlesInTable();
    PassThenTake(HandlesRead(w.Mem().bytes, ptr.value, |objs|), live, table.live, handles, objs);
    var result := GetArrayJsValueFromWasm0(w, table, ptr.value, w.wasmVectorLen);
    return Some(result);
  }
}
