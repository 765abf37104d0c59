/**
 Handing strings to wasm and reading them back.

 A string is copied as long as it is ASCII; the rest, if any, goes through the text
 encoder into a buffer enlarged to three bytes per remaining code unit, which is then
 shrunk.  Both this path and the simple one, which encodes first, leave exactly the
 UTF-8 encoding of the string in a region of exactly its length.
 */
module StringMarshalling {
  import opened Wrappers
  import opened Utf
  import opened WasmMemory

  /** The strings a host can build; the bound is V8's. */
  type JsString = s: seq<CodeUnit> | |s| <= 0x1FFF_FFE8

  // ---------------------------------------------------------------------------
  // Facts about regions

  lemma KeepsWithoutNew(m: Memory, m': Memory, p: nat)
    requires Keeps(m, m') && p !in m.regions
    ensures Keeps(m, Without(m', p))
  {
    forall q | q in m.regions
      ensures KeepsRegion(m, Without(m', p), q)
    {
      assert KeepsRegion(m, m', q);
    }
  }

  /** Bytes written inside the region at `p` show up there and nowhere else. */
  lemma WriteInside(m: Memory, m': Memory, p: nat, offset: nat, data: seq<Byte>)
    requires ValidMemory(m) && p in m.regions && offset + |data| <= m.regions[p]
    requires m'.regions == m.regions
    requires m'.bytes == m.bytes[..p + offset] + data + m.bytes[p + offset + |data|..]
    ensures ValidMemory(m') && Keeps(Without(m, p), Without(m', p))
    ensures |Contents(m, p)| == |Contents(m', p)| == m.regions[p]
    ensures Contents(m', p) == Contents(m, p)[..offset] + data + Contents(m, p)[offset + |data|..]
  {
    var at, end := p + offset, p + m.regions[p];
    OwnCellsUnused(m, p, at, |data|);
    WithoutIsValid(m, p);
    WriteKeeps(Without(m, p), Without(m', p), at, |data|);
    assert Contents(m', p) == m'.bytes[p..end];
    var expected := Contents(m, p)[..offset] + data + Contents(m, p)[offset + |data|..];
    forall i | 0 <= i < m.regions[p]
      ensures m'.bytes[p..end][i] == expected[i]
    {
      assert m'.bytes[p..end][i] == m'.bytes[p + i] && m.bytes[p..end][i] == m.bytes[p + i];
    }
  }

  predicate ByteAfter(before: seq<Byte>, bytes: seq<Byte>, at: nat, data: seq<Byte>, i: nat)
    requires i < |before| == |bytes|
  {
    bytes[i] == if at <= i < at + |data| then data[i - at] else before[i]
  }

  /** `data` was written at `at`, and nothing else changed. */
  ghost predicate Written(before: seq<Byte>, bytes: seq<Byte>, at: nat, data: seq<Byte>) {
    && |bytes| == |before| && (data != [] ==> at + |data| <= |before|)
    && forall i {:trigger ByteAfter(before, bytes, at, data, i)} :: 0 <= i < |bytes| ==>
         ByteAfter(before, bytes, at, data, i)
  }

  lemma NothingWritten(before: seq<Byte>, bytes: seq<Byte>, at: nat)
    ensures Written(before, bytes, at, []) <==> bytes == before
  {
    if Written(before, bytes, at, []) {
      forall i | 0 <= i < |bytes|
        ensures bytes[i] == before[i]
      {
        assert ByteAfter(before, bytes, at, [], i);
      }
    }
  }

  lemma WrittenByte(before: seq<Byte>, bytes: seq<Byte>, at: nat, data: seq<Byte>, b: Byte)
    requires Written(before, bytes, at, data) && at + |data| < |before|
    ensures at + |data| < |bytes| && Written(before, bytes[at + |data| := b], at, data + [b])
  {
    var bytes', data' := bytes[at + |data| := b], data + [b];
    forall i | 0 <= i < |bytes|
      ensures ByteAfter(before, bytes', at, data', i)
    {
      assert ByteAfter(before, bytes, at, data, i);
    }
  }

  lemma WrittenSlices(before: seq<Byte>, bytes: seq<Byte>, at: nat, data: seq<Byte>)
    requires at + |data| <= |before|
    ensures Written(before, bytes, at, data) <==> bytes == before[..at] + data + before[at + |data|..]
  {
    if Written(before, bytes, at, data) {
      var expected := before[..at] + data + before[at + |data|..];
      forall i | 0 <= i < |bytes|
        ensures bytes[i] == expected[i]
      {
        assert ByteAfter(before, bytes, at, data, i);
      }
    }
  }

  // ---------------------------------------------------------------------------
  // Passing a string

  function EncodedBytes(arg: JsString, room: nat, hasEncodeInto: bool): seq<Byte> {
    if hasEncodeInto then EncodeInto(arg, room).1 else Encode(arg)
  }

  /** Either encoder writes the whole encoding when there are three bytes per code unit. */
  lemma RoomSuffices(arg: JsString, room: nat, hasEncodeInto: bool)
    requires 3 * |arg| <= room
    ensures EncodedBytes(arg, room, hasEncodeInto) == Encode(arg) && |arg| <= |Encode(arg)| <= room
  {
    EncodedLength(arg);
    EncodeIntoIsCompleteIffFits(arg, room);
  }

  /** The host's encoder: `encodeInto` where there is one, else `encode` and a copy, which
      throws unless the view has room for all of it. */
  method EncodeString(arg: JsString, view: View, from: nat, room: nat, hasEncodeInto: bool)
      returns (read: nat, written: nat)
    requires from + room <= ByteLength(view)
    requires hasEncodeInto || |Encode(arg)| <= room
    modifies view.buffer.data
    ensures read == if hasEncodeInto then EncodeInto(arg, room).0 else |arg|
    ensures var bytes := EncodedBytes(arg, room, hasEncodeInto);
      written == |bytes| && Written(old(view.buffer.data[..]), view.buffer.data[..], from, bytes)
  {
    ghost var before := view.buffer.data[..];
    if hasEncodeInto {
      var result := EncodeInto(arg, room);
      SetBytes(view, from, result.1);
      read, written := result.0, |result.1|;
    } else {
      var buf := Encode(arg);
      SetBytes(view, from, buf);
      read, written := |arg|, |buf|;
    }
    WrittenSlices(before, view.buffer.data[..], from, EncodedBytes(arg, room, hasEncodeInto));
  }

  /** The loop over the ASCII prefix; it stops at the end or at the first other code unit. */
  method CopyAscii(mem: View, arg: JsString, ptr: nat) returns (offset: nat)
    requires !mem.buffer.detached && (arg != [] ==> ptr + |arg| <= mem.buffer.data.Length)
    modifies mem.buffer.data
    ensures offset <= |arg| && IsAscii(arg[..offset]) && (offset < |arg| ==> arg[offset] > 0x7F)
    ensures Written(old(mem.buffer.data[..]), mem.buffer.data[..], ptr, arg[..offset])
  {
    ghost var before := mem.buffer.data[..];
    NothingWritten(before, before, ptr);
    offset := 0;
    while offset < |arg|
      invariant offset <= |arg| && IsAscii(arg[..offset])
      invariant Written(before, mem.buffer.data[..], ptr, arg[..offset])
    {
      var code := arg[offset];
      if code > 0x7F {
        break;
      }
      WrittenByte(before, mem.buffer.data[..], ptr, arg[..offset], code);
      SetByte(mem, ptr + offset, code);
      assert arg[..offset + 1] == arg[..offset] + [code];
      offset := offset + 1;
    }
  }

  /** What a successful pass promises: the address, never null, of a new region that holds the
      encoding, and its length. */
  ghost predicate Passed(m: Memory, m': Memory, ptr: nat, len: nat, arg: JsString) {
    && Keeps(m, m') && 0 < ptr < ADDRESS_SPACE
    && len == |Encode(arg)|
    && Holds(m', ptr, Encode(arg))
    && (if arg == [] then m'.regions == m.regions
        else ptr !in m.regions && m'.regions == m.regions[ptr := len])
  }

  /** Byte for byte. */
  lemma PassedBytesLieAt(m: Memory, m': Memory, ptr: nat, len: nat, arg: JsString, i: nat)
    requires Passed(m, m', ptr, len, arg) && i < |Encode(arg)|
    ensures ptr + i < |m'.bytes| && m'.bytes[ptr + i] == Encode(arg)[i]
  {
    EncodedLength(arg);
    assert Contents(m', ptr)[i] == m'.bytes[ptr + i];
  }

  /** The path taken when no `realloc` is given: encode, allocate, copy. */
  method PassEncoded(w: Wasm, arg: JsString) returns (ptr: Option<nat>)
    requires w.Valid() && !w.trapped
    modifies w`buffer, w`regions, w`trapped, w`cachedUint8Memory0, w`wasmVectorLen, w.buffer, w.buffer.data
    ensures ptr.None? <==> w.trapped
    ensures w.Valid() && (w.buffer == old(w.buffer) || (fresh(w.buffer) && fresh(w.buffer.data)))
    ensures Keeps(old(w.Mem()), w.Mem())
    ensures ptr.Some? ==> Passed(old(w.Mem()), w.Mem(), ptr.value, w.wasmVectorLen, arg)
  {
    EncodedLength(arg);
    var buf := Encode(arg);
    var raw := w.Malloc(|buf|, 1);
    if raw.None? {
      return None;
    }
    var p := ToUint32(raw.value);
    var view := w.GetUint8Memory0();
    if buf != [] {
      CopyInto(w, view, p, buf, old(w.Mem()));
    }
    w.wasmVectorLen := |buf|;
    return Some(p);
  }

  /** Fill a region that is new since `m`. */
  method CopyInto(w: Wasm, view: View, p: nat, buf: seq<Byte>, ghost m: Memory)
    requires w.Valid() && view.buffer == w.buffer && buf != []
    requires Keeps(m, w.Mem()) && p !in m.regions && w.regions == m.regions[p := |buf|]
    modifies view.buffer.data
    ensures w.Valid() && Keeps(m, w.Mem()) && Holds(w.Mem(), p, buf)
  {
    ghost var before := w.Mem();
    assert p in before.regions;
    SetBytes(view, p, buf);
    WriteInside(before, w.Mem(), p, 0, buf);
    FillingStarted(m, before, w.Mem(), p, |buf|, buf);
    assert Contents(w.Mem(), p)[..|buf|] == Contents(w.Mem(), p);
  }

  predicate LiesAt(m: Memory, p: nat, data: seq<Byte>, k: nat)
    requires k < |data|
  {
    p + k < |m.bytes| && m.bytes[p + k] == data[k]
  }

  ghost predicate StartsWith(m: Memory, p: nat, data: seq<Byte>) {
    forall k {:trigger LiesAt(m, p, data, k)} :: 0 <= k < |data| ==> LiesAt(m, p, data, k)
  }

  lemma StartsWithPrefix(m: Memory, p: nat, data: seq<Byte>)
    requires p in m.regions && |data| <= m.regions[p] && p + m.regions[p] <= |m.bytes|
    ensures StartsWith(m, p, data) <==> data <= Contents(m, p)
  {
    var c := Contents(m, p);
    assert forall k :: 0 <= k < |c| ==> c[k] == m.bytes[p + k];
    if StartsWith(m, p, data) {
      forall k | 0 <= k < |data|
        ensures data[k] == c[k]
      {
        assert LiesAt(m, p, data, k);
      }
    }
  }

  /** A region that is being filled: it is new since `m`, and starts with `data`. */
  ghost predicate Filling(m: Memory, m': Memory, ptr: nat, size: nat, data: seq<Byte>) {
    && Keeps(m, m') && Keeps(m, Without(m', ptr))
    && 0 < ptr < ADDRESS_SPACE && ptr !in m.regions && m'.regions == m.regions[ptr := size]
    && |data| <= size && ptr + size <= |m'.bytes| && StartsWith(m', ptr, data)
  }

  lemma FillingInside(m: Memory, m': Memory, ptr: nat, size: nat, data: seq<Byte>)
    requires Filling(m, m', ptr, size, data)
    ensures ptr in m'.regions && m'.regions[ptr] == size && ptr + size <= |m'.bytes|
    ensures |Contents(m', ptr)| == size && data <= Contents(m', ptr)
  {
    assert ptr in m'.regions;
    StartsWithPrefix(m', ptr, data);
  }

  lemma FillingWritten(m: Memory, m': Memory, m'': Memory, ptr: nat, size: nat, data: seq<Byte>, more: seq<Byte>)
    requires ValidMemory(m') && Filling(m, m', ptr, size, data) && |data| + |more| <= size
    requires m''.regions == m'.regions && Written(m'.bytes, m''.bytes, ptr + |data|, more)
    ensures ValidMemory(m'') && Filling(m, m'', ptr, size, data + more)
  {
    FillingInside(m, m', ptr, size, data);
    WrittenSlices(m'.bytes, m''.bytes, ptr + |data|, more);
    WriteInside(m', m'', ptr, |data|, more);
    WithoutIsValid(m'', ptr);
    KeepsTransitive(m, Without(m', ptr), Without(m'', ptr));
    KeepsTransitive(m, Without(m'', ptr), m'');
    assert ptr in m''.regions && data + more <= Contents(m'', ptr);
    StartsWithPrefix(m'', ptr, data + more);
  }

  lemma PrefixCopied(c: seq<Byte>, c': seq<Byte>, kept: nat, data: seq<Byte>)
    requires data <= c && |data| <= kept <= |c| && kept <= |c'| && c'[..kept] == c[..kept]
    ensures data <= c'
  {
    assert data == c[..kept][..|data|] == c'[..kept][..|data|];
  }

  lemma FillingMoved(m: Memory, m': Memory, m'': Memory, ptr: nat, size: nat, data: seq<Byte>, ptr': nat, size': nat)
    requires ValidMemory(m') && ValidMemory(m'')
    requires Filling(m, m', ptr, size, data) && |data| <= size'
    requires Keeps(Without(m', ptr), m'')
    requires ptr' !in m'.regions - {ptr} && m''.regions == (m'.regions - {ptr})[ptr' := size']
    requires var kept := if size < size' then size else size';
      |Contents(m'', ptr')| == size' && Contents(m'', ptr')[..kept] == Contents(m', ptr)[..kept]
    ensures Filling(m, m'', ptr', size', data)
  {
    KeepsTransitive(m, Without(m', ptr), m'');
    assert m'.regions - {ptr} == m.regions;
    KeepsWithoutNew(m, m'', ptr');
    FillingInside(m, m', ptr, size, data);
    var kept := if size < size' then size else size';
    PrefixCopied(Contents(m', ptr), Contents(m'', ptr'), kept, data);
    assert ptr' in m''.regions;
    StartsWithPrefix(m'', ptr', data);
  }

  /** `ptr = realloc(ptr, size, size', 1) >>> 0` for a region that is being filled. */
  method Resize(w: Wasm, ptr: nat, size: nat, size': nat, ghost data: seq<Byte>, ghost m: Memory)
      returns (r: Option<nat>)
    requires w.Valid() && !w.trapped && Filling(m, w.Mem(), ptr, size, data)
    requires 0 < size' < ADDRESS_SPACE && |data| <= size'
    modifies w`buffer, w`regions, w`trapped, w.buffer, w.buffer.data
    ensures r.None? <==> w.trapped
    ensures w.Valid() && (w.buffer == old(w.buffer) || (fresh(w.buffer) && fresh(w.buffer.data)))
    ensures r.None? ==> Keeps(m, w.Mem())
    ensures r.Some? ==> Filling(m, w.Mem(), r.value, size', data)
  {
    ghost var before := w.Mem();
    var raw := w.Realloc(ptr, size, size', 1);
    if raw.None? {
      KeepsTransitive(m, before, w.Mem());
      return None;
    }
    var p := ToUint32(raw.value);
    FillingMoved(m, before, w.Mem(), ptr, size, data, p, size');
    return Some(p);
  }

  /** The encoder on a view with room enough. */
  method EncodeFully(rest: JsString, view: View, at: nat, room: nat, hasEncodeInto: bool) returns (written: nat)
    requires at + room <= ByteLength(view) && 3 * |rest| <= room
    modifies view.buffer.data
    ensures written == |Encode(rest)| <= room
    ensures Written(old(view.buffer.data[..]), view.buffer.data[..], at, Encode(rest))
  {
    RoomSuffices(rest, room, hasEncodeInto);
    var read;
    read, written := EncodeString(rest, view, at, room, hasEncodeInto);
  }

  /** Encode the rest of the string behind what the region already holds. */
  method EncodeBehind(w: Wasm, rest: JsString, ptr: nat, offset: nat, len: nat, hasEncodeInto: bool,
                      ghost data: seq<Byte>, ghost m: Memory)
      returns (written: nat)
    requires w.Valid() && Filling(m, w.Mem(), ptr, len, data) && |data| == offset
    requires offset + 3 * |rest| <= len
    modifies w`cachedUint8Memory0, w.buffer.data
    ensures w.Valid()
    ensures written == |Encode(rest)| && offset + written <= len
    ensures Filling(m, w.Mem(), ptr, len, data + Encode(rest))
  {
    ghost var before := w.Mem();
    FillingInside(m, before, ptr, len, data);
    var view := w.GetUint8Memory0();
    assert view.buffer.data[..] == before.bytes;
    written := EncodeFully(rest, view, ptr + offset, len - offset, hasEncodeInto);
    assert w.regions == before.regions && Written(before.bytes, w.Mem().bytes, ptr + offset, Encode(rest));
    FillingWritten(m, before, w.Mem(), ptr, len, data, Encode(rest));
  }

  method EncodeAndShrink(w: Wasm, rest: JsString, ptr: nat, offset: nat, len: nat, hasEncodeInto: bool,
                         ghost data: seq<Byte>, ghost m: Memory)
      returns (r: Option<(nat, nat)>)
    requires w.Valid() && !w.trapped && Filling(m, w.Mem(), ptr, len, data) && |data| == offset
    requires rest != [] && |Encode(rest)| > 0 && offset + 3 * |rest| <= len < ADDRESS_SPACE
    modifies w`buffer, w`regions, w`trapped, w`cachedUint8Memory0, w.buffer, w.buffer.data
    ensures r.None? <==> w.trapped
    ensures w.Valid() && (w.buffer == old(w.buffer) || (fresh(w.buffer) && fresh(w.buffer.data)))
    ensures r.None? ==> Keeps(m, w.Mem())
    ensures r.Some? ==>
      r.value.1 == |data + Encode(rest)| && Filling(m, w.Mem(), r.value.0, r.value.1, data + Encode(rest))
  {
    var written := EncodeBehind(w, rest, ptr, offset, len, hasEncodeInto, data, m);
    ghost var all := data + Encode(rest);
    assert |all| == offset + written;
    var p := Resize(w, ptr, len, offset + written, all, m);
    r := if p.Some? then Some((p.value, offset + written)) else None;
  }

  lemma RestOfString(arg: JsString, offset: nat)
    requires offset < |arg| && IsAscii(arg[..offset])
    ensures var rest := arg[offset..];
      && Encode(arg) == arg[..offset] + Encode(rest)
      && 1 <= |rest| <= |Encode(rest)| <= 3 * |rest|
  {
    AsciiPrefix(arg, offset);
    EncodedLength(arg[offset..]);
  }

  /** From the first code unit that is not ASCII: enlarge, encode, shrink. */
  method EncodeRest(w: Wasm, arg: JsString, offset: nat, ptr: nat, hasEncodeInto: bool, ghost m: Memory)
      returns (r: Option<(nat, nat)>)
    requires offset < |arg| && IsAscii(arg[..offset])
    requires w.Valid() && !w.trapped && Filling(m, w.Mem(), ptr, |arg|, arg[..offset])
    modifies w`buffer, w`regions, w`trapped, w`cachedUint8Memory0, w.buffer, w.buffer.data
    ensures r.None? <==> w.trapped
    ensures w.Valid() && (w.buffer == old(w.buffer) || (fresh(w.buffer) && fresh(w.buffer.data)))
    ensures r.None? ==> Keeps(m, w.Mem())
    ensures r.Some? ==> r.value.1 == |Encode(arg)| && Filling(m, w.Mem(), r.value.0, r.value.1, Encode(arg))
  {
    var rest := if offset != 0 then arg[offset..] else arg;
    assert rest == arg[offset..];
    RestOfString(arg, offset);
    ghost var data := arg[..offset];
    var len := offset + |rest| * 3;
    r := None;
    var p := Resize(w, ptr, |arg|, len, data, m);
    if p.Some? {
      r := EncodeAndShrink(w, rest, p.value, offset, len, hasEncodeInto, data, m);
    }
  }

  /** The region at `ptr` after the ASCII loop, seen from before its allocation. */
  lemma FillingStarted(m: Memory, m': Memory, m'': Memory, ptr: nat, size: nat, data: seq<Byte>)
    requires ValidMemory(m'') && Keeps(m, m') && ptr !in m.regions
    requires m'.regions == m''.regions == m.regions[ptr := size]
    requires Keeps(Without(m', ptr), Without(m'', ptr))
    requires size == |Contents(m'', ptr)| && data <= Contents(m'', ptr)
    ensures Filling(m, m'', ptr, size, data)
  {
    KeepsWithoutNew(m, m', ptr);
    KeepsTransitive(m, Without(m', ptr), Without(m'', ptr));
    WithoutIsValid(m'', ptr);
    KeepsTransitive(m, Without(m'', ptr), m'');
    assert ptr in m''.regions;
    StartsWithPrefix(m'', ptr, data);
  }

  lemma FilledIsPassed(m: Memory, m': Memory, ptr: nat, len: nat, arg: JsString)
    requires arg != [] && len == |Encode(arg)| && Filling(m, m', ptr, len, Encode(arg))
    ensures Passed(m, m', ptr, len, arg)
  {
    assert ptr in m'.regions;
    StartsWithPrefix(m', ptr, Encode(arg));
    assert Contents(m', ptr)[..len] == Contents(m', ptr);
  }

  lemma CopyStartsFilling(m: Memory, before: Memory, m': Memory, ptr: nat, size: nat, data: seq<Byte>)
    requires ValidMemory(before) && Keeps(m, before) && ptr !in m.regions
    requires m'.regions == before.regions == m.regions[ptr := size] && |data| <= size
    requires Written(before.bytes, m'.bytes, ptr, data)
    ensures ValidMemory(m') && Filling(m, m', ptr, size, data)
  {
    assert ptr in before.regions;
    WrittenSlices(before.bytes, m'.bytes, ptr, data);
    WriteInside(before, m', ptr, 0, data);
    FillingStarted(m, before, m', ptr, size, data);
  }

  /** Allocate one byte per code unit and copy the ASCII prefix. */
  method Begin(w: Wasm, arg: JsString) returns (r: Option<(nat, nat)>)
    requires w.Valid() && !w.trapped
    modifies w`buffer, w`regions, w`trapped, w`cachedUint8Memory0, w.buffer, w.buffer.data
    ensures r.None? <==> w.trapped
    ensures w.Valid() && (w.buffer == old(w.buffer) || (fresh(w.buffer) && fresh(w.buffer.data)))
    ensures Keeps(old(w.Mem()), w.Mem())
    ensures r.Some? ==>
      && 0 < r.value.0 < ADDRESS_SPACE && r.value.1 <= |arg| && IsAscii(arg[..r.value.1])
      && (if arg == [] then w.regions == old(w.regions)
          else Filling(old(w.Mem()), w.Mem(), r.value.0, |arg|, arg[..r.value.1]))
  {
    ghost var m := w.Mem();
    var raw := w.Malloc(|arg|, 1);
    if raw.None? {
      return None;
    }
    var ptr := ToUint32(raw.value);
    ghost var before := w.Mem();
    assert arg != [] ==> ptr in before.regions;
    var mem := w.GetUint8Memory0();
    var offset := CopyAscii(mem, arg, ptr);
    if arg != [] {
      CopyStartsFilling(m, before, w.Mem(), ptr, |arg|, arg[..offset]);
    } else {
      NothingWritten(before.bytes, w.Mem().bytes, ptr);
    }
    return Some((ptr, offset));
  }

  lemma AllAscii(arg: JsString)
    requires IsAscii(arg)
    ensures Encode(arg) == arg
  {
    assert arg[..|arg|] == arg;
    AsciiPrefix(arg, |arg|);
  }

  /** Both paths of the source.  A trap in the allocator ends the call. */
  method PassStringToWasm0(w: Wasm, arg: JsString, hasRealloc: bool, hasEncodeInto: bool)
      returns (r: Option<nat>)
    requires w.Valid() && !w.trapped
    modifies w`buffer, w`regions, w`trapped, w`cachedUint8Memory0, w`wasmVectorLen, w.buffer, w.buffer.data
    ensures r.None? <==> w.trapped
    ensures w.Valid() && (w.buffer == old(w.buffer) || (fresh(w.buffer) && fresh(w.buffer.data)))
    ensures Keeps(old(w.Mem()), w.Mem())
    ensures r.Some? ==> Passed(old(w.Mem()), w.Mem(), r.value, w.wasmVectorLen, arg)
  {
    if !hasRealloc {
      r := PassEncoded(w, arg);
      return;
    }
    ghost var m := w.Mem();
    var at := Begin(w, arg);
    if at.Some? && at.value.1 != |arg| {
      at := EncodeRest(w, arg, at.value.1, at.value.0, hasEncodeInto, m);
    } else if at.Some? {
      assert arg[..|arg|] == arg;
      AllAscii(arg);
    }
    if at.None? {
      return None;
    }
    if arg != [] {
      FilledIsPassed(m, w.Mem(), at.value.0, at.value.1, arg);
    }
    w.wasmVectorLen := at.value.1;
    return Some(at.value.0);
  }
}
