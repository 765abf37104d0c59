/**
 The linear memory of the wasm instance, the allocator it exports, and the cached
 views through which JavaScript reads and writes it.

 The allocator is foreign code: `Malloc` and `Realloc` choose freely, so that what a
 caller can rely on is their contract and nothing more.  Either may grow the memory,
 which replaces the buffer and detaches the old one; a detached view has length 0 and
 ignores writes.
 */
module WasmMemory {
  import opened Wrappers
  import opened Utf

  const ADDRESS_SPACE: nat := 0x1_0000_0000

  /** The `>>> 0` that turns the signed number wasm returns into an address. */
  function ToUint32(x: int): nat { x % 0x1_0000_0000 }

  function ToInt32(p: nat): int
    requires p < ADDRESS_SPACE
  {
    if p < 0x8000_0000 then p else p - ADDRESS_SPACE
  }

  lemma AddressRoundTrip(p: nat)
    requires p < ADDRESS_SPACE
    ensures ToUint32(ToInt32(p)) == p
  {
  }

  /** `x >>> 0` on what wasm returns, which has 32 bits and a sign. */
  lemma UnsignedAddress(x: int)
    requires -0x8000_0000 <= x < 0x8000_0000
    ensures ToUint32(x) == if x < 0 then x + 0x1_0000_0000 else x
    ensures ToInt32(ToUint32(x)) == x
  {
  }

  lemma AddressIsUint32(p: nat)
    requires p < ADDRESS_SPACE
    ensures ToUint32(p) == p
  {
  }

  /** The glue code asks for alignments 1 and 4 only. */
  predicate Aligned(p: nat, align: nat) {
    align == 4 ==> p % 4 == 0
  }

  // ---------------------------------------------------------------------------
  // Snapshots

  /** The bytes of the memory and the allocated regions: address to size. */
  datatype Memory = Memory(bytes: seq<Byte>, regions: map<nat, nat>)

  predicate Apart(regions: map<nat, nat>, p: nat, size: nat, q: nat)
    requires q in regions
  {
    p + size <= q || q + regions[q] <= p
  }

  /** The `size` cells from `p` meet no region. */
  predicate IsUnused(regions: map<nat, nat>, p: nat, size: nat) {
    forall q {:trigger Apart(regions, p, size, q)} :: q in regions ==> Apart(regions, p, size, q)
  }

  ghost predicate Separate(regions: map<nat, nat>) {
    && (forall p :: p in regions ==> 0 < regions[p])
    && forall p, q {:trigger Apart(regions, p, regions[p], q)} ::
         p in regions && q in regions && p != q ==> Apart(regions, p, regions[p], q)
  }

  ghost predicate Inside(m: Memory) {
    forall p :: p in m.regions ==> p + m.regions[p] <= |m.bytes|
  }

  ghost predicate ValidMemory(m: Memory) {
    && |m.bytes| <= ADDRESS_SPACE && 0 !in m.regions
    && Separate(m.regions) && Inside(m)
  }

  /** The bytes of the region at `p`. */
  function Contents(m: Memory, p: nat): seq<Byte> {
    if p in m.regions && p + m.regions[p] <= |m.bytes| then m.bytes[p..p + m.regions[p]] else []
  }

  /** `p` is the address of a region that holds exactly `data`; no region is needed for no data. */
  ghost predicate Holds(m: Memory, p: nat, data: seq<Byte>) {
    data != [] ==> p in m.regions && m.regions[p] == |data| && Contents(m, p) == data
  }

  ghost predicate KeepsRegion(m: Memory, m': Memory, p: nat)
    requires p in m.regions
  {
    p in m'.regions && m'.regions[p] == m.regions[p] && Contents(m', p) == Contents(m, p)
  }

  /** Every region of `m` is still there in `m'`, as large as before and with the same bytes. */
  ghost predicate Keeps(m: Memory, m': Memory) {
    forall p {:trigger KeepsRegion(m, m', p)} :: p in m.regions ==> KeepsRegion(m, m', p)
  }

  lemma KeepsHeld(m: Memory, m': Memory, p: nat, data: seq<Byte>)
    requires Keeps(m, m') && Holds(m, p, data)
    ensures Holds(m', p, data)
  {
    assert p in m.regions ==> KeepsRegion(m, m', p);
  }

  lemma KeepsTransitive(m: Memory, m': Memory, m'': Memory)
    requires Keeps(m, m') && Keeps(m', m'')
    ensures Keeps(m, m'')
  {
    forall p | p in m.regions
      ensures KeepsRegion(m, m'', p)
    {
      assert KeepsRegion(m, m', p) && KeepsRegion(m', m'', p);
    }
  }

  function Without(m: Memory, p: nat): Memory {
    Memory(m.bytes, m.regions - {p})
  }

  lemma WithoutIsValid(m: Memory, p: nat)
    requires ValidMemory(m)
    ensures ValidMemory(Without(m, p)) && Keeps(Without(m, p), m)
  {
    var rest := Without(m, p).regions;
    forall a, b | a in rest && b in rest && a != b
      ensures Apart(rest, a, rest[a], b)
    {
      assert Apart(m.regions, a, m.regions[a], b);
    }
  }

  lemma WithoutKeeps(m: Memory, m': Memory, p: nat)
    requires ValidMemory(m) && ValidMemory(m') && Keeps(m, m')
    ensures Keeps(Without(m, p), Without(m', p)) && Keeps(Without(m', p), m')
  {
    forall q | q in Without(m, p).regions
      ensures KeepsRegion(Without(m, p), Without(m', p), q)
    {
      assert KeepsRegion(m, m', q);
    }
    WithoutIsValid(m', p);
  }

  /** The cells of one region are unused by the others. */
  lemma OwnCellsUnused(m: Memory, p: nat, at: nat, size: nat)
    requires ValidMemory(m) && p in m.regions && p <= at && at + size <= p + m.regions[p]
    ensures IsUnused(m.regions - {p}, at, size)
  {
    forall q | q in m.regions - {p}
      ensures Apart(m.regions - {p}, at, size, q)
    {
      assert Apart(m.regions, p, m.regions[p], q);
    }
  }

  lemma GrowKeeps(m: Memory, m': Memory)
    requires ValidMemory(m) && m.regions == m'.regions
    requires |m.bytes| <= |m'.bytes| && m'.bytes[..|m.bytes|] == m.bytes
    requires |m'.bytes| <= ADDRESS_SPACE
    ensures ValidMemory(m') && Keeps(m, m')
  {
    forall p | p in m.regions
      ensures KeepsRegion(m, m', p)
    {
      var end := p + m.regions[p];
      forall n | p <= n < end
        ensures m'.bytes[n] == m.bytes[n]
      {
        assert m'.bytes[n] == m'.bytes[..|m.bytes|][n];
      }
    }
  }

  lemma AllocationKeeps(m: Memory, p: nat, size: nat)
    requires ValidMemory(m) && 0 < size && 0 < p && p + size <= |m.bytes| && IsUnused(m.regions, p, size)
    ensures p !in m.regions
    ensures var m' := Memory(m.bytes, m.regions[p := size]); ValidMemory(m') && Keeps(m, m')
  {
    assert p in m.regions ==> Apart(m.regions, p, size, p);
    var regions' := m.regions[p := size];
    forall a, b | a in regions' && b in regions' && a != b
      ensures Apart(regions', a, regions'[a], b)
    {
      if a == p {
        assert Apart(m.regions, p, size, b);
      } else if b == p {
        assert Apart(m.regions, p, size, a);
      } else {
        assert Apart(m.regions, a, m.regions[a], b);
      }
    }
  }

  /** No region is as large as the address space, since none lies at the null address. */
  lemma RegionsAreSmaller(m: Memory, p: nat)
    requires ValidMemory(m) && p in m.regions
    ensures m.regions[p] < ADDRESS_SPACE
  {
  }

  /** Writing to cells that no region of `m` uses keeps all its regions. */
  lemma WriteKeeps(m: Memory, m': Memory, at: nat, size: nat)
    requires ValidMemory(m) && at + size <= |m.bytes| && IsUnused(m.regions, at, size)
    requires m'.regions == m.regions && |m'.bytes| == |m.bytes|
    requires m'.bytes[..at] == m.bytes[..at] && m'.bytes[at + size..] == m.bytes[at + size..]
    ensures ValidMemory(m') && Keeps(m, m')
  {
    forall p | p in m.regions
      ensures KeepsRegion(m, m', p)
    {
      assert Apart(m.regions, at, size, p);
      if p + m.regions[p] <= at {
        SliceOfPrefix(m.bytes, m'.bytes, at, p, p + m.regions[p]);
      } else {
        SliceOfSuffix(m.bytes, m'.bytes, at + size, p, p + m.regions[p]);
      }
    }
  }

  lemma SliceOfPrefix(a: seq<Byte>, b: seq<Byte>, k: nat, i: nat, j: nat)
    requires i <= j <= k <= |a| == |b| && a[..k] == b[..k]
    ensures a[i..j] == b[i..j]
  {
    assert a[i..j] == a[..k][i..j] && b[i..j] == b[..k][i..j];
  }

  lemma SliceOfSuffix(a: seq<Byte>, b: seq<Byte>, k: nat, i: nat, j: nat)
    requires k <= i <= j <= |a| == |b| && a[k..] == b[k..]
    ensures a[i..j] == b[i..j]
  {
    forall n | i <= n < j
      ensures a[n] == b[n]
    {
      assert a[n] == a[k..][n - k] && b[n] == b[k..][n - k];
    }
  }

  /** The memory after the region at `ptr` was moved to `p` and its first bytes copied. */
  function Moved(m: Memory, ptr: nat, p: nat, size: nat, kept: nat): Memory
    requires kept <= |Contents(m, ptr)| && p + kept <= |m.bytes|
  {
    Memory(m.bytes[..p] + Contents(m, ptr)[..kept] + m.bytes[p + kept..], (m.regions - {ptr})[p := size])
  }

  lemma MoveKeeps(m: Memory, ptr: nat, p: nat, size: nat, kept: nat)
    requires ValidMemory(m) && ptr in m.regions && kept <= m.regions[ptr] && kept <= size
    requires 0 < size && 0 < p && p + size <= |m.bytes| && IsUnused(m.regions - {ptr}, p, size)
    ensures var m' := Moved(m, ptr, p, size, kept);
      && ValidMemory(m') && Keeps(Without(m, ptr), m')
      && p !in m.regions - {ptr}
      && |Contents(m', p)| == size && Contents(m', p)[..kept] == Contents(m, ptr)[..kept]
  {
    var m' := Moved(m, ptr, p, size, kept);
    var others, written := Without(m, ptr), Memory(m'.bytes, m.regions - {ptr});
    WithoutIsValid(m, ptr);
    forall q | q in others.regions
      ensures Apart(others.regions, p, kept, q)
    {
      assert Apart(others.regions, p, size, q);
    }
    WriteKeeps(others, written, p, kept);
    AllocationKeeps(written, p, size);
    KeepsTransitive(others, written, m');
    assert Contents(m', p)[..kept] == m'.bytes[p..p + kept];
  }

  // ---------------------------------------------------------------------------
  // Numbers of four bytes

  type Word = w: int | 0 <= w < 0x1_0000_0000

  function WordBytes(w: Word): (b: seq<Byte>)
    ensures |b| == 4
  {
    [w % 0x100, w / 0x100 % 0x100, w / 0x1_0000 % 0x100, w / 0x100_0000]
  }

  function WordAt(bytes: seq<Byte>, i: nat): (w: Word)
    requires i + 4 <= |bytes|
  {
    WordOf(bytes[i], bytes[i + 1], bytes[i + 2], bytes[i + 3])
  }

  function WordOf(b0: int, b1: int, b2: int, b3: int): int {
    b0 + b1 * 0x100 + b2 * 0x1_0000 + b3 * 0x100_0000
  }

  lemma WordRoundTrip(w: Word)
    ensures var b := WordBytes(w); WordOf(b[0], b[1], b[2], b[3]) == w
  {
    ByteCascade(w);
  }

  /** A number lies in memory with its lowest byte first. */
  lemma WordIsLittleEndian(bytes: seq<Byte>, i: nat)
    requires i + 4 <= |bytes|
    ensures var w := WordAt(bytes, i);
      && bytes[i] == w % 0x100 && bytes[i + 1] == w / 0x100 % 0x100
      && bytes[i + 2] == w / 0x1_0000 % 0x100 && bytes[i + 3] == w / 0x100_0000
  {
    var b0: int, b1: int, b2: int, b3: int := bytes[i], bytes[i + 1], bytes[i + 2], bytes[i + 3];
    var u2 := b2 + b3 * 0x100;
    var u1 := b1 + u2 * 0x100;
    var w := b0 + u1 * 0x100;
    assert w == WordAt(bytes, i);
    assert w / 0x100 == u1 && u1 / 0x100 == u2 && u2 / 0x100 == b3;
    ByteCascade(w);
  }

  lemma ByteCascade(w: nat)
    ensures w / 0x1_0000 == w / 0x100 / 0x100 && w / 0x100_0000 == w / 0x1_0000 / 0x100
  {
  }

  // ---------------------------------------------------------------------------
  // Buffers and views

  class ArrayBuffer {
    const data: array<Byte>
    var detached: bool

    constructor (data: array<Byte>)
      ensures this.data == data && !detached
    {
      this.data := data;
      detached := false;
    }
  }

  /** A typed array over a whole buffer. */
  datatype View = View(buffer: ArrayBuffer)

  function ByteLength(v: View): nat
    reads v.buffer
  {
    if v.buffer.detached then 0 else v.buffer.data.Length
  }

  /** `mem[i] = value` on a view of bytes; out of range it does nothing. */
  method SetByte(v: View, i: nat, value: int)
    modifies v.buffer.data
    ensures v.buffer.data[..] ==
      if i < ByteLength(v) then old(v.buffer.data[..])[i := value % 0x100] else old(v.buffer.data[..])
  {
    if i < ByteLength(v) {
      v.buffer.data[i] := value % 0x100;
    }
  }

  /** `mem[i] = value` on a view of 32-bit numbers; out of range it does nothing. */
  method SetWord(v: View, i: nat, value: int)
    modifies v.buffer.data
    ensures 4 * i + 4 > ByteLength(v) ==> v.buffer.data[..] == old(v.buffer.data[..])
    ensures 4 * i + 4 <= ByteLength(v) ==>
      && WordAt(v.buffer.data[..], 4 * i) == ToUint32(value)
      && v.buffer.data[..][..4 * i] == old(v.buffer.data[..])[..4 * i]
      && v.buffer.data[..][4 * i + 4..] == old(v.buffer.data[..])[4 * i + 4..]
  {
    if 4 * i + 4 <= ByteLength(v) {
      var b, data, at := WordBytes(ToUint32(value)), v.buffer.data, 4 * i;
      data[at], data[at + 1], data[at + 2], data[at + 3] := b[0], b[1], b[2], b[3];
      WordRoundTrip(ToUint32(value));
    }
  }

  /** `view.subarray(at, ...).set(bytes)`; the host throws unless the bytes fit. */
  method SetBytes(v: View, at: nat, bytes: seq<Byte>)
    requires at + |bytes| <= ByteLength(v)
    modifies v.buffer.data
    ensures v.buffer.data[..] ==
      old(v.buffer.data[..])[..at] + bytes + old(v.buffer.data[..])[at + |bytes|..]
  {
    forall i | 0 <= i < |bytes| {
      v.buffer.data[at + i] := bytes[i];
    }
  }

  // ---------------------------------------------------------------------------
  // The instance and the module-level variables of the glue code

  class Wasm {
    var buffer: ArrayBuffer
    var regions: map<nat, nat>
    var cachedUint8Memory0: Option<View>
    var cachedInt32Memory0: Option<View>
    var cachedUint32Memory0: Option<View>
    var wasmVectorLen: nat
    var trapped: bool  // an exception from wasm is on its way through the caller

    static function Buffers(cache: Option<View>): set<object> {
      if cache.Some? then {cache.value.buffer} else {}
    }

    ghost function CachedBuffers(): set<object>
      reads this
    {
      Buffers(cachedUint8Memory0) + Buffers(cachedInt32Memory0) + Buffers(cachedUint32Memory0)
    }

    /** A cached view is one of the current buffer, or detached. */
    ghost predicate NotStale(cache: Option<View>)
      reads this, Buffers(cache)
    {
      cache.Some? ==> cache.value.buffer == buffer || cache.value.buffer.detached
    }

    ghost predicate Valid()
      reads this, buffer, buffer.data, CachedBuffers()
    {
      && !buffer.detached
      && ValidMemory(Mem())
      && NotStale(cachedUint8Memory0) && NotStale(cachedInt32Memory0) && NotStale(cachedUint32Memory0)
    }

    ghost function Mem(): Memory
      reads this, buffer, buffer.data
    {
      Memory(buffer.data[..], regions)
    }

    constructor (pages: nat)
      requires pages * 0x1_0000 <= ADDRESS_SPACE
      ensures Valid() && fresh(buffer) && fresh(buffer.data)
      ensures regions == map[] && buffer.data.Length == pages * 0x1_0000
    {
      var data := new Byte[pages * 0x1_0000](_ => 0);
      buffer := new ArrayBuffer(data);
      regions := map[];
      cachedUint8Memory0, cachedInt32Memory0, cachedUint32Memory0 := None, None, None;
      wasmVectorLen, trapped := 0, false;
    }

    method GetUint8Memory0() returns (v: View)
      requires Valid()
      modifies this`cachedUint8Memory0
      ensures Valid()
      ensures v.buffer == buffer
    {
      if cachedUint8Memory0.None? || ByteLength(cachedUint8Memory0.value) == 0 {
        cachedUint8Memory0 := Some(View(buffer));
      }
      v := cachedUint8Memory0.value;
    }

    method GetInt32Memory0() returns (v: View)
      requires Valid()
      modifies this`cachedInt32Memory0
      ensures Valid()
      ensures v.buffer == buffer
    {
      if cachedInt32Memory0.None? || ByteLength(cachedInt32Memory0.value) == 0 {
        cachedInt32Memory0 := Some(View(buffer));
      }
      v := cachedInt32Memory0.value;
    }

    method GetUint32Memory0() returns (v: View)
      requires Valid()
      modifies this`cachedUint32Memory0
      ensures Valid()
      ensures v.buffer == buffer
    {
      if cachedUint32Memory0.None? || ByteLength(cachedUint32Memory0.value) == 0 {
        cachedUint32Memory0 := Some(View(buffer));
      }
      v := cachedUint32Memory0.value;
    }

    /** `memory.grow`: a longer buffer takes over the bytes, and every older view is detached; where
        the address space is too small nothing happens. */
    method Grow(pages: nat) returns (grown: bool)
      requires Valid()
      modifies this`buffer, buffer
      ensures Valid() && Keeps(old(Mem()), Mem())
      ensures grown <==> old(buffer.data.Length) + pages * 0x1_0000 <= ADDRESS_SPACE
      ensures !grown ==> buffer == old(buffer)
      ensures grown ==>
        && fresh(buffer) && fresh(buffer.data) && old(buffer).detached
        && buffer.data.Length == old(buffer.data.Length) + pages * 0x1_0000
        && buffer.data[..old(buffer.data.Length)] == old(buffer.data[..])
        && (forall i :: old(buffer.data.Length) <= i < buffer.data.Length ==> buffer.data[i] == 0)
    {
      var data := buffer.data;
      if data.Length + pages * 0x1_0000 > ADDRESS_SPACE {
        return false;
      }
      var longer := new Byte[data.Length + pages * 0x1_0000];
      forall i | 0 <= i < longer.Length {
        longer[i] := if i < data.Length then data[i] else 0;
      }
      assert longer[..data.Length] == data[..];
      GrowKeeps(Mem(), Memory(longer[..], regions));
      buffer.detached := true;
      buffer := new ArrayBuffer(longer);
      return true;
    }

    /** What the allocator may do to the memory on its own account. */
    method MaybeGrow()
      requires Valid()
      modifies this`buffer, buffer
      ensures Valid() && (buffer == old(buffer) || (fresh(buffer) && fresh(buffer.data)))
      ensures Keeps(old(Mem()), Mem())
    {
      var pages: nat := *;
      var grown := Grow(pages);
    }

    /** The allocator's choice of a place, if it finds one. */
    method Place(size: nat, align: nat, others: map<nat, nat>) returns (place: Option<nat>)
      requires align == 1 || align == 4
      ensures place.Some? ==>
        && 0 < place.value < ADDRESS_SPACE && Aligned(place.value, align)
        && place.value + size <= buffer.data.Length && IsUnused(others, place.value, size)
    {
      place := None;
      if p: nat :| 0 < p < ADDRESS_SPACE && Aligned(p, align) && p + size <= buffer.data.Length
                   && IsUnused(others, p, size) {
        var trap: bool := *;
        if !trap {
          place := Some(p);
        }
      }
    }

    /** `__wbindgen_malloc`: None where wasm traps, else the signed address of a region that was
        not in use.  No region is made for size 0. */
    method Malloc(size: nat, align: nat) returns (raw: Option<int>)
      requires Valid() && !trapped && size < ADDRESS_SPACE && (align == 1 || align == 4)
      modifies this`buffer, this`regions, this`trapped, buffer, buffer.data
      ensures raw.None? <==> trapped
      ensures Valid() && (buffer == old(buffer) || (fresh(buffer) && fresh(buffer.data)))
      ensures Keeps(old(Mem()), Mem())
      ensures raw.Some? ==> -0x8000_0000 <= raw.value < 0x8000_0000
      ensures raw.Some? ==> ToUint32(raw.value) != 0 && Aligned(ToUint32(raw.value), align)
      ensures if raw.Some? && 0 < size
              then ToUint32(raw.value) !in old(regions) && regions == old(regions)[ToUint32(raw.value) := size]
              else regions == old(regions)
    {
      ghost var before := Mem();
      MaybeGrow();
      ghost var grown := Mem();
      if size == 0 {
        return Some(ToInt32(align));
      }
      var place := Place(size, align, regions);
      if place.None? {
        trapped := true;
        return None;
      }
      AllocationKeeps(grown, place.value, size);
      AddressRoundTrip(place.value);
      regions := regions[place.value := size];
      KeepsTransitive(before, grown, Mem());
      return Some(ToInt32(place.value));
    }

    /** `__wbindgen_realloc`: the region moves or stays, and keeps its first bytes. */
    method Realloc(ptr: nat, oldSize: nat, newSize: nat, align: nat) returns (raw: Option<int>)
      requires Valid() && !trapped && ptr in regions && regions[ptr] == oldSize
      requires 0 < newSize < ADDRESS_SPACE && (align == 1 || align == 4)
      modifies this`buffer, this`regions, this`trapped, buffer, buffer.data
      ensures raw.None? <==> trapped
      ensures Valid() && (buffer == old(buffer) || (fresh(buffer) && fresh(buffer.data)))
      ensures Keeps(Without(old(Mem()), ptr), Mem())
      ensures raw.None? ==> Keeps(old(Mem()), Mem()) && regions == old(regions)
      ensures raw.Some? ==>
        var p, kept := ToUint32(raw.value), if oldSize < newSize then oldSize else newSize;
        && -0x8000_0000 <= raw.value < 0x8000_0000 && p != 0 && Aligned(p, align)
        && p !in old(regions) - {ptr} && regions == (old(regions) - {ptr})[p := newSize]
        && |Contents(Mem(), p)| == newSize && |Contents(old(Mem()), ptr)| == oldSize
        && Contents(Mem(), p)[..kept] == Contents(old(Mem()), ptr)[..kept]
    {
      MaybeGrow();
      ghost var grown := Mem();
      assert KeepsRegion(old(Mem()), grown, ptr);
      WithoutKeeps(old(Mem()), grown, ptr);
      KeepsTransitive(Without(old(Mem()), ptr), Without(grown, ptr), grown);
      var place := Place(newSize, align, regions - {ptr});
      if place.None? {
        trapped := true;
        return None;
      }
      var kept := if oldSize < newSize then oldSize else newSize;
      Move(ptr, place.value, newSize, kept);
      KeepsTransitive(Without(old(Mem()), ptr), Without(grown, ptr), Mem());
      AddressRoundTrip(place.value);
      return Some(ToInt32(place.value));
    }

    method Move(ptr: nat, p: nat, size: nat, kept: nat)
      requires Valid() && ptr in regions && kept <= regions[ptr] && kept <= size
      requires 0 < size && 0 < p && p + size <= buffer.data.Length && IsUnused(regions - {ptr}, p, size)
      modifies this`regions, buffer.data
      ensures Valid() && p !in old(regions) - {ptr} && regions == (old(regions) - {ptr})[p := size]
      ensures Keeps(Without(old(Mem()), ptr), Mem())
      ensures kept <= |Contents(old(Mem()), ptr)| && |Contents(Mem(), p)| == size
      ensures Contents(Mem(), p)[..kept] == Contents(old(Mem()), ptr)[..kept]
    {
      ghost var m := Mem();
      MoveKeeps(m, ptr, p, size, kept);
      var saved := buffer.data[ptr..ptr + kept];
      assert saved == Contents(m, ptr)[..kept];
      SetBytes(View(buffer), p, saved);
      regions := (regions - {ptr})[p := size];
      assert Mem() == Moved(m, ptr, p, size, kept);
    }
  }
}
