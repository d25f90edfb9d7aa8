/**
 Block devices: a memory device over a byte buffer, and partitions of any device, nested to any depth. Each
 access goes down level by level; it is proved to be one access to the buffer, at the sum of the offsets, so
 that every device behaves like a byte array of its own.
 */
module BlockDevices {
  import opened Common
  import Sectors

  datatype Err = OK | InvalidArg | InvalidSize | InvalidState

  /** Bound of the signed result of the translation functions (`ssize_t` has 32 bits). */
  const SSIZE_LIMIT: nat := 0x8000_0000
  const U64_LIMIT: nat := 0x1_0000_0000_0000_0000

  datatype Geometry = Geometry(diskSize: nat, readSize: nat, writeSize: nat, eraseSize: nat)

  class MemoryDevice {
    const buffer: array<Byte>
    const geometry: Geometry
    const readOnly: bool

    constructor (buffer: array<Byte>, geometry: Geometry, readOnly: bool)
      ensures this.buffer == buffer && this.geometry == geometry && this.readOnly == readOnly
    {
      this.buffer, this.geometry, this.readOnly := buffer, geometry, readOnly;
    }
  }

  /** A partition copies geometry and flags of its parent, except for the size. */
  datatype Device =
    | Memory(mem: MemoryDevice)
    | Partition(parent: Device, start: nat, size: nat)

  function Base(dev: Device): MemoryDevice {
    if dev.Memory? then dev.mem else Base(dev.parent)
  }

  function SizeOf(dev: Device): nat {
    if dev.Memory? then dev.mem.geometry.diskSize else dev.size
  }

  /** Where the device's first byte lies in the buffer. */
  function Offset(dev: Device): nat {
    if dev.Memory? then 0 else Offset(dev.parent) + dev.start
  }

  predicate WellFormed(dev: Device) {
    if dev.Memory? then
      0 < dev.mem.geometry.diskSize <= dev.mem.buffer.Length && dev.mem.geometry.diskSize <= U32_MAX
    else
      WellFormed(dev.parent) && dev.start + dev.size <= SizeOf(dev.parent)
  }

  /** esp_blockdev_memory_get_from_buffer. */
  method GetMemory(buffer: array<Byte>, geometry: Geometry, readOnly: bool) returns (r: Err, dev: Option<Device>)
    ensures r == if geometry.diskSize == 0 then InvalidArg
                 else if geometry.diskSize > U32_MAX || geometry.diskSize > buffer.Length then InvalidSize else OK
    ensures dev.Some? <==> r == OK
    ensures r == OK ==>
              && WellFormed(dev.value) && SizeOf(dev.value) == geometry.diskSize && Offset(dev.value) == 0
              && Base(dev.value).buffer == buffer && Base(dev.value).readOnly == readOnly && fresh(Base(dev.value))
  {
    if geometry.diskSize == 0 {
      return InvalidArg, None;
    }
    if geometry.diskSize > U32_MAX || geometry.diskSize > buffer.Length {
      return InvalidSize, None;
    }
    var m := new MemoryDevice(buffer, geometry, readOnly);
    return OK, Some(Memory(m));
  }

  /** esp_blockdev_generic_partition_get: exactly the ranges inside the parent become partitions. */
  function GetPartition(parent: Device, start: nat, size: nat): (r: Option<Device>)
    requires WellFormed(parent) && start <= U32_MAX && size <= U32_MAX
    ensures r.Some? <==> start + size <= SizeOf(parent)
    ensures r.Some? ==> WellFormed(r.value) && SizeOf(r.value) == size && Offset(r.value) == Offset(parent) + start
    ensures r.Some? ==> Base(r.value) == Base(parent)
  {
    if start + size > SizeOf(parent) then None else Some(Partition(parent, start, size))
  }

  // ---------------------------------------------------------------------------------------------
  // Address translation
  // ---------------------------------------------------------------------------------------------

  /** The cast of a 32-bit address to `ssize_t`. */
  function Signed(x: nat): int
    requires x <= U32_MAX
  {
    if x < SSIZE_LIMIT then x else x - U32_LIMIT
  }

  function ToParent(dev: Device, address: nat): int
    requires dev.Partition? && WellFormed(dev) && address <= U32_MAX
  {
    SizeFits(dev.parent);
    if address > dev.size then -1
    else if dev.start + address > SizeOf(dev.parent) then -1
    else Signed(dev.start + address)
  }

  function ToChild(dev: Device, address: nat): int
    requires dev.Partition? && WellFormed(dev) && address <= U32_MAX
  {
    if address < dev.start then -1
    else if address - dev.start > dev.size then -1
    else Signed(address - dev.start)
  }

  lemma {:induction false} SizeFits(dev: Device)
    requires WellFormed(dev)
    ensures SizeOf(dev) <= U32_MAX && Offset(dev) + SizeOf(dev) <= SizeOf(Memory(Base(dev))) <= Base(dev).buffer.Length
    ensures SizeOf(Memory(Base(dev))) <= U32_MAX
  {
    if dev.Partition? { SizeFits(dev.parent); }
  }

  /**
   The two translations are inverse to each other on the partition's addresses below 2 GiB, its end included,
   and report a negative address everywhere else.
   */
  lemma TranslationsInvert(dev: Device, address: nat)
    requires dev.Partition? && WellFormed(dev) && address <= U32_MAX
    ensures ToParent(dev, address) >= 0 <==> address <= dev.size && dev.start + address < SSIZE_LIMIT
    ensures ToParent(dev, address) >= 0 ==> ToChild(dev, ToParent(dev, address)) == address
    ensures ToChild(dev, address) >= 0 <==> dev.start <= address <= dev.start + dev.size && address - dev.start < SSIZE_LIMIT
    ensures ToChild(dev, address) >= 0 && address < SSIZE_LIMIT ==> ToParent(dev, ToChild(dev, address)) == address
    // outside the partition the answer is -1, and from 2 GiB on it is the sum less 4 GiB
    ensures address > dev.size ==> ToParent(dev, address) == -1
    ensures !(dev.start <= address <= dev.start + dev.size) ==> ToChild(dev, address) == -1
    ensures address <= dev.size && dev.start + address >= SSIZE_LIMIT ==> ToParent(dev, address) == dev.start + address - 0x1_0000_0000
  {
    SizeFits(dev);
    SizeFits(dev.parent);
  }

  /** Level by level, an access ends up at the sum of the offsets, or is refused because that is 2 GiB or more. */
  function ToBase(dev: Device, address: nat): int
    requires WellFormed(dev) && address <= SizeOf(dev)
    decreases dev
  {
    if dev.Memory? then address
    else
      SizeFits(dev);
      var up := ToParent(dev, address);
      if up < 0 then -1 else
      TranslationsInvert(dev, address);
      ToBase(dev.parent, up)
  }

  lemma {:induction false} ToBaseIsOffset(dev: Device, address: nat)
    requires WellFormed(dev) && address <= SizeOf(dev)
    ensures ToBase(dev, address) == if Reachable(dev, address) then Offset(dev) + address else -1
    decreases dev
  {
    if dev.Partition? {
      SizeFits(dev);
      TranslationsInvert(dev, address);
      if ToParent(dev, address) >= 0 {
        ToBaseIsOffset(dev.parent, dev.start + address);
      }
    }
  }

  predicate Reachable(dev: Device, address: nat) {
    dev.Memory? || Offset(dev) + address < SSIZE_LIMIT
  }

  // ---------------------------------------------------------------------------------------------
  // Ancestors and siblings
  // ---------------------------------------------------------------------------------------------

  /** `dev` is `a` or nested in it, at any depth. */
  predicate Within(dev: Device, a: Device) {
    dev == a || (dev.Partition? && Within(dev.parent, a))
  }

  lemma {:induction false} StaysInEveryAncestor(dev: Device, a: Device)
    requires WellFormed(dev) && Within(dev, a)
    ensures WellFormed(a) && Base(a) == Base(dev)
    ensures Offset(a) <= Offset(dev) && Offset(dev) + SizeOf(dev) <= Offset(a) + SizeOf(a)
  {
    if dev != a { StaysInEveryAncestor(dev.parent, a); }
  }

  predicate Apart(a: Device, b: Device) {
    a.Partition? && b.Partition? && a.parent == b.parent && (a.start + a.size <= b.start || b.start + b.size <= a.start)
  }

  /** Byte `x` of the parent lies in the partition. */
  predicate Contains(dev: Device, x: nat)
    requires dev.Partition?
  {
    dev.start <= x < dev.start + dev.size
  }

  /** Partitions of one device are disjoint siblings exactly if no byte of the parent lies in both. */
  lemma ApartIff(a: Device, b: Device)
    requires a.Partition? && b.Partition? && a.parent == b.parent && a.size > 0 && b.size > 0
    ensures Apart(a, b) <==> forall x: nat :: !(Contains(a, x) && Contains(b, x))
  {
    if !Apart(a, b) {
      assert Contains(a, if a.start <= b.start then b.start else a.start);
      assert Contains(b, if a.start <= b.start then b.start else a.start);
    }
  }

  /** A device lies within itself and within everything its parent lies in, and in nothing else. */
  lemma WithinIff(dev: Device, a: Device)
    ensures Within(dev, dev)
    ensures dev.Partition? && dev != a ==> (Within(dev, a) <==> Within(dev.parent, a))
    ensures dev.Memory? && Within(dev, a) ==> dev == a
  {
  }

  /** Whatever is nested in disjoint siblings is disjoint in the buffer. */
  lemma SiblingsStayApart(a: Device, b: Device, d: Device, e: Device)
    requires WellFormed(d) && WellFormed(e) && Within(d, a) && Within(e, b) && Apart(a, b)
    ensures Offset(d) + SizeOf(d) <= Offset(e) || Offset(e) + SizeOf(e) <= Offset(d)
  {
    StaysInEveryAncestor(d, a);
    StaysInEveryAncestor(e, b);
  }

  function Splice(s: seq<Byte>, at: nat, data: seq<Byte>): (r: seq<Byte>)
    requires at + |data| <= |s|
    ensures |r| == |s|
  {
    s[..at] + data + s[at + |data|..]
  }

  lemma SpliceInside(s: seq<Byte>, at: nat, data: seq<Byte>, lo: nat, hi: nat)
    requires lo <= at && at + |data| <= hi <= |s|
    ensures Splice(s, at, data)[lo..hi] == Splice(s[lo..hi], at - lo, data)
  {
  }

  lemma SpliceOutside(s: seq<Byte>, at: nat, data: seq<Byte>, lo: nat, hi: nat)
    requires at + |data| <= |s| && lo <= hi <= |s| && (hi <= at || at + |data| <= lo)
    ensures Splice(s, at, data)[lo..hi] == s[lo..hi]
  {
  }

  lemma SpliceReads(s: seq<Byte>, at: nat, data: seq<Byte>)
    requires at + |data| <= |s|
    ensures Splice(s, at, data)[at..at + |data|] == data
  {
  }

  // ---------------------------------------------------------------------------------------------
  // Access
  // ---------------------------------------------------------------------------------------------

  predicate Divides(unit: nat, address: nat, len: nat) {
    unit > 0 && address % unit == 0 && len % unit == 0
  }

  /**
   The assertions every partition on the way down makes, as far as the way goes: `unit` divides address and
   length. The memory device makes none, so a partition lying directly on it may start anywhere.
   */
  predicate Aligned(dev: Device, address: nat, len: nat, unit: nat) {
    dev.Partition? ==>
      && Divides(unit, address, len)
      && (dev.start + address < SSIZE_LIMIT ==> Aligned(dev.parent, dev.start + address, len, unit))
  }

  /** It is enough that the caller's request and the start of every partition of a partition are aligned. */
  predicate StartsAligned(dev: Device, unit: nat) {
    dev.Partition? && dev.parent.Partition? ==> unit > 0 && dev.start % unit == 0 && StartsAligned(dev.parent, unit)
  }

  lemma {:induction false} AlignedStartsSuffice(dev: Device, address: nat, len: nat, unit: nat)
    requires StartsAligned(dev, unit) && Divides(unit, address, len)
    ensures Aligned(dev, address, len, unit)
  {
    if dev.Partition? && dev.parent.Partition? {
      Sectors.SumAligned(dev.start, address, unit);
      AlignedStartsSuffice(dev.parent, dev.start + address, len, unit);
    }
  }

  predicate InRange(dev: Device, address: nat, len: nat) {
    address + len <= SizeOf(dev)
  }

  /** The range check of every access: the sum has 64 bits. */
  predicate Passes(dev: Device, address: nat, len: nat) {
    (address + len) % U64_LIMIT <= SizeOf(dev)
  }

  /** The request fits the parameters: a 64-bit address and a 32-bit length. */
  predicate Request(address: nat, len: nat) {
    address < U64_LIMIT && len <= U32_MAX
  }

  /** The check is exact but for the requests whose sum wraps to an address of the device. */
  lemma PassesIff(dev: Device, address: nat, len: nat)
    requires WellFormed(dev) && Request(address, len)
    ensures Passes(dev, address, len) <==>
            InRange(dev, address, len) || U64_LIMIT <= address + len <= U64_LIMIT + SizeOf(dev)
    ensures InRange(dev, address, len) ==> address <= U32_MAX
  {
    SizeFits(dev);
  }

  /** A memory device copies from the address cast to `size_t`: a request that passes by wrapping leaves the device. */
  lemma MemoryFollowsWrap(dev: Device, address: nat, len: nat)
    requires WellFormed(dev) && Request(address, len) && Passes(dev, address, len)
    ensures address % U32_LIMIT + len <= SizeOf(dev) <==> InRange(dev, address, len)
  {
    PassesIff(dev, address, len);
    SizeFits(dev);
    if !InRange(dev, address, len) {
      assert address % U32_LIMIT == address - (U64_LIMIT - U32_LIMIT);
    }
  }

  /** For example ten bytes from five below 2^64 on, on any device of at least five bytes. */
  lemma TenBytesWrap(dev: Device)
    requires WellFormed(dev) && SizeOf(dev) >= 5
    ensures var address, len := U64_LIMIT - 5, 10;
            Request(address, len) && Passes(dev, address, len) && address % U32_LIMIT + len > SizeOf(dev)
  {
    PassesIff(dev, U64_LIMIT - 5, 10);
    MemoryFollowsWrap(dev, U64_LIMIT - 5, 10);
  }

  /** A partition has a second line of defence: what a wrapped request is translated to, the parent refuses. */
  lemma WrapIsRefused(dev: Device, address: nat, len: nat)
    requires WellFormed(dev) && dev.Partition? && Request(address, len)
    requires Passes(dev, address, len) && !InRange(dev, address, len) && Translated(dev, address) >= 0
    ensures Request(Translated(dev, address), len) && !Passes(dev.parent, Translated(dev, address), len)
    ensures !InRange(dev.parent, Translated(dev, address), len) && Translated(dev, address) + len < U64_LIMIT
  {
    SizeFits(dev.parent);
    PassesIff(dev, address, len);
    assert address % U32_LIMIT == address - (U64_LIMIT - U32_LIMIT);
  }

  /** The parent's address, after the cast of the 64-bit address to `size_t`. */
  function Translated(dev: Device, address: nat): int
    requires dev.Partition? && WellFormed(dev)
  {
    ToParent(dev, address % U32_LIMIT)
  }

  lemma TranslatedInRange(dev: Device, address: nat, len: nat)
    requires dev.Partition? && WellFormed(dev) && InRange(dev, address, len)
    ensures Translated(dev, address) >= 0 <==> dev.start + address < SSIZE_LIMIT
    ensures Translated(dev, address) >= 0 ==>
              Translated(dev, address) == dev.start + address && InRange(dev.parent, dev.start + address, len)
  {
    SizeFits(dev);
    TranslationsInvert(dev, address);
  }

  /** The bytes of the buffer an access to the device concerns. */
  function At(dev: Device, address: nat): nat {
    Offset(dev) + address
  }

  /** `got` are the bytes of `buffer` at `at`. */
  predicate Fetched(got: seq<Byte>, buffer: seq<Byte>, at: nat) {
    at + |got| <= |buffer| && got == buffer[at..at + |got|]
  }

  /** `after` is `before` with `data` written at `at` and nothing else changed. */
  predicate Stored(before: seq<Byte>, after: seq<Byte>, at: nat, data: seq<Byte>) {
    at + |data| <= |before| && after == Splice(before, at, data)
  }

  /** bd_memory_read once the range is checked. */
  method CopyOut(buffer: array<Byte>, dst: array<Byte>, at: nat, len: nat)
    requires buffer != dst && len <= dst.Length && at + len <= buffer.Length
    modifies dst
    ensures Fetched(dst[..len], buffer[..], at) && dst[len..] == old(dst[len..])
  {
    forall i | 0 <= i < len {
      dst[i] := buffer[at + i];
    }
  }

  method CopyIn(buffer: array<Byte>, at: nat, data: seq<Byte>)
    requires at + |data| <= buffer.Length
    modifies buffer
    ensures Stored(old(buffer[..]), buffer[..], at, data)
  {
    forall i | 0 <= i < |data| {
      buffer[at + i] := data[i];
    }
    assert buffer[..] == Splice(old(buffer[..]), at, data);
  }

  /** What a partition that has passed the range check meets one level down. */
  lemma GoDown(dev: Device, address: nat, len: nat)
    requires WellFormed(dev) && dev.Partition? && Request(address, len) && Passes(dev, address, len)
    ensures var up := Translated(dev, address);
            && (up < 0 ==> !InRange(dev, address, len) || !Reachable(dev, address))
            && (up >= 0 ==>
                  && Request(up, len) && up + len < U64_LIMIT
                  && (InRange(dev, address, len) ==> up == dev.start + address && InRange(dev.parent, up, len))
                  && (!InRange(dev, address, len) ==> !InRange(dev.parent, up, len))
                  && (Passes(dev.parent, up, len) ==> InRange(dev.parent, up, len)))
  {
    SizeFits(dev.parent);
    if InRange(dev, address, len) {
      TranslatedInRange(dev, address, len);
    } else if Translated(dev, address) >= 0 {
      WrapIsRefused(dev, address, len);
    }
  }

  /** bd_gp_read and bd_memory_read. */
  method Read(dev: Device, dst: array<Byte>, dstSize: nat, address: nat, len: nat) returns (r: Err)
    requires WellFormed(dev) && dstSize <= dst.Length && dst != Base(dev).buffer && Request(address, len)
    requires dev.Memory? ==> address + len < U64_LIMIT
    requires len <= dstSize && InRange(dev, address, len) ==> Aligned(dev, address, len, Base(dev).geometry.readSize)
    requires len <= dstSize && Passes(dev, address, len) && dev.Partition? ==> Divides(Base(dev).geometry.readSize, address, len)
    modifies dst
    ensures r == if len > dstSize then InvalidSize
                 else if !InRange(dev, address, len) || !Reachable(dev, address) then InvalidArg else OK
    ensures r == OK ==> Fetched(dst[..len], Base(dev).buffer[..], At(dev, address)) && dst[len..] == old(dst[len..])
    ensures r != OK ==> dst[..] == old(dst[..])
    decreases dev
  {
    SizeFits(dev);
    if len > dstSize {
      return InvalidSize;
    }
    PassesIff(dev, address, len);
    if (address + len) % U64_LIMIT > SizeOf(dev) {
      return InvalidArg;
    }
    match dev
    case Memory(mem) =>
      CopyOut(mem.buffer, dst, address, len);
      return OK;
    case Partition(parent, start, size) =>
      var addrParent := ToParent(dev, address % U32_LIMIT);
      GoDown(dev, address, len);
      if addrParent < 0 {
        return InvalidArg;
      }
      r := Read(parent, dst, dstSize, addrParent, len);
  }

  /** bd_gp_write and bd_memory_write. A partition asserts that it is writable; the memory device reports it. */
  method Write(dev: Device, data: seq<Byte>, address: nat) returns (r: Err)
    requires WellFormed(dev) && Request(address, |data|) && (dev.Memory? ==> address + |data| < U64_LIMIT)
    requires dev.Partition? && InRange(dev, address, |data|) ==> Aligned(dev, address, |data|, Base(dev).geometry.writeSize)
    requires dev.Partition? && Passes(dev, address, |data|) ==>
               !Base(dev).readOnly && Divides(Base(dev).geometry.writeSize, address, |data|)
    modifies Base(dev).buffer
    ensures r == if Base(dev).readOnly && dev.Memory? then InvalidState
                 else if !InRange(dev, address, |data|) || !Reachable(dev, address) then InvalidArg else OK
    ensures r == OK ==> Stored(old(Base(dev).buffer[..]), Base(dev).buffer[..], At(dev, address), data)
    ensures r != OK ==> Base(dev).buffer[..] == old(Base(dev).buffer[..])
    decreases dev
  {
    SizeFits(dev);
    PassesIff(dev, address, |data|);
    match dev
    case Memory(mem) =>
      if mem.readOnly {
        return InvalidState;
      }
      if (address + |data|) % U64_LIMIT > SizeOf(dev) {
        return InvalidArg;
      }
      CopyIn(mem.buffer, address, data);
      return OK;
    case Partition(parent, start, size) =>
      if (address + |data|) % U64_LIMIT > size {
        return InvalidArg;
      }
      var addrParent := ToParent(dev, address % U32_LIMIT);
      GoDown(dev, address, |data|);
      if addrParent < 0 {
        return InvalidArg;
      }
      r := Write(parent, data, addrParent);
  }

  function Repeat(b: Byte, n: nat): (s: seq<Byte>)
    ensures |s| == n
  {
    seq(n, _ => b)
  }

  /** bd_gp_erase and bd_memory_erase. Memory devices are created with an erase value of 0. */
  method Erase(dev: Device, address: nat, len: nat) returns (r: Err)
    requires WellFormed(dev) && Request(address, len) && (dev.Memory? ==> address + len < U64_LIMIT)
    requires dev.Partition? ==> !Base(dev).readOnly && Divides(Base(dev).geometry.eraseSize, address, len)
    requires dev.Partition? && InRange(dev, address, len) ==> Aligned(dev, address, len, Base(dev).geometry.eraseSize)
    // a wrapped request the parent has to refuse meets the parent's assertions first
    requires dev.Partition? && dev.parent.Partition? && Passes(dev, address, len) && !InRange(dev, address, len) &&
             Translated(dev, address) >= 0 ==>
               Divides(Base(dev).geometry.eraseSize, Translated(dev, address), len)
    modifies Base(dev).buffer
    ensures r == if Base(dev).readOnly && dev.Memory? then InvalidState
                 else if !InRange(dev, address, len) || !Reachable(dev, address) then InvalidArg else OK
    ensures r == OK ==> Stored(old(Base(dev).buffer[..]), Base(dev).buffer[..], At(dev, address), Repeat(0, len))
    ensures r != OK ==> Base(dev).buffer[..] == old(Base(dev).buffer[..])
    decreases dev
  {
    SizeFits(dev);
    PassesIff(dev, address, len);
    match dev
    case Memory(mem) =>
      if mem.readOnly {
        return InvalidState;
      }
      if (address + len) % U64_LIMIT > SizeOf(dev) {
        return InvalidArg;
      }
      CopyIn(mem.buffer, address, Repeat(0, len));
      return OK;
    case Partition(parent, start, size) =>
      if (address + len) % U64_LIMIT > size {
        return InvalidArg;
      }
      var addrParent := ToParent(dev, address % U32_LIMIT);
      GoDown(dev, address, len);
      if addrParent < 0 {
        return InvalidArg;
      }
      r := Erase(parent, addrParent, len);
  }

  // ---------------------------------------------------------------------------------------------
  // Every device is a byte array of its own
  // ---------------------------------------------------------------------------------------------

  /** What a device shows of the buffer. */
  function View(dev: Device, buffer: seq<Byte>): (v: seq<Byte>)
    requires WellFormed(dev) && |buffer| == Base(dev).buffer.Length
    ensures |v| == SizeOf(dev)
  {
    SizeFits(dev);
    buffer[Offset(dev)..Offset(dev) + SizeOf(dev)]
  }

  /** A read in range delivers the bytes of the device's own view. */
  lemma ReadsView(dev: Device, buffer: seq<Byte>, address: nat, got: seq<Byte>)
    requires WellFormed(dev) && |buffer| == Base(dev).buffer.Length && InRange(dev, address, |got|)
    requires Fetched(got, buffer, At(dev, address))
    ensures got == View(dev, buffer)[address..address + |got|]
  {
    SizeFits(dev);
    SliceOfSlice(buffer, Offset(dev), Offset(dev) + SizeOf(dev), address, address + |got|);
  }

  lemma SliceOfSlice(s: seq<Byte>, lo: nat, hi: nat, a: nat, b: nat)
    requires lo <= hi <= |s| && a <= b <= hi - lo
    ensures s[lo..hi][a..b] == s[lo + a..lo + b]
  {
    var t, u := s[lo..hi][a..b], s[lo + a..lo + b];
    assert |t| == |u| && forall k | 0 <= k < |t| :: t[k] == u[k];
  }

  lemma ViewSplices(dev: Device, before: seq<Byte>, after: seq<Byte>, at: nat, data: seq<Byte>)
    requires WellFormed(dev) && |before| == Base(dev).buffer.Length && Stored(before, after, at, data)
    requires Offset(dev) <= at && at - Offset(dev) + |data| <= SizeOf(dev)
    ensures View(dev, after) == Splice(View(dev, before), at - Offset(dev), data)
  {
    SizeFits(dev);
    SpliceInside(before, at, data, Offset(dev), Offset(dev) + SizeOf(dev));
  }

  /** A write in range splices the device's own view ... */
  lemma WritesView(dev: Device, before: seq<Byte>, after: seq<Byte>, address: nat, data: seq<Byte>)
    requires WellFormed(dev) && |before| == Base(dev).buffer.Length && InRange(dev, address, |data|)
    requires Stored(before, after, At(dev, address), data)
    ensures View(dev, after) == Splice(View(dev, before), address, data)
    ensures Fetched(data, after, At(dev, address))
  {
    SizeFits(dev);
    ViewSplices(dev, before, after, At(dev, address), data);
    SpliceReads(before, At(dev, address), data);
  }

  /** ... every ancestor sees the same bytes change, at the translated address ... */
  lemma AncestorsSeeWrite(dev: Device, a: Device, before: seq<Byte>, after: seq<Byte>, address: nat, data: seq<Byte>)
    requires WellFormed(dev) && Within(dev, a) && |before| == Base(dev).buffer.Length && InRange(dev, address, |data|)
    requires Stored(before, after, At(dev, address), data)
    ensures WellFormed(a) && Base(a) == Base(dev) && Offset(a) <= At(dev, address)
    ensures At(dev, address) - Offset(a) + |data| <= SizeOf(a)
    ensures View(a, after) == Splice(View(a, before), At(dev, address) - Offset(a), data)
  {
    StaysInEveryAncestor(dev, a);
    ViewSplices(a, before, after, At(dev, address), data);
  }

  /** ... and nothing nested in a disjoint sibling sees any change. */
  lemma SiblingsSeeNothing(a: Device, b: Device, d: Device, e: Device,
                           before: seq<Byte>, after: seq<Byte>, address: nat, data: seq<Byte>)
    requires WellFormed(d) && WellFormed(e) && Within(d, a) && Within(e, b) && Apart(a, b)
    requires |before| == Base(d).buffer.Length && InRange(d, address, |data|)
    requires Stored(before, after, At(d, address), data)
    ensures Base(e) == Base(d) && View(e, after) == View(e, before)
  {
    StaysInEveryAncestor(d, a);
    StaysInEveryAncestor(e, b);
    SizeFits(e);
    SpliceOutside(before, At(d, address), data, Offset(e), Offset(e) + SizeOf(e));
  }

  /** Reading back what was just written, through any stack of partitions. */
  method WriteThenRead(dev: Device, data: seq<Byte>, address: nat, dst: array<Byte>) returns (r: Err)
    requires WellFormed(dev) && dst != Base(dev).buffer && |data| == dst.Length && Request(address, |data|)
    requires dev.Memory? ==> address + |data| < U64_LIMIT
    requires dev.Partition? && InRange(dev, address, |data|) ==>
               Aligned(dev, address, |data|, Base(dev).geometry.writeSize) && Aligned(dev, address, |data|, Base(dev).geometry.readSize)
    requires dev.Partition? && Passes(dev, address, |data|) ==>
               && !Base(dev).readOnly && Divides(Base(dev).geometry.writeSize, address, |data|)
               && Divides(Base(dev).geometry.readSize, address, |data|)
    modifies Base(dev).buffer, dst
    ensures r == OK <==> !(Base(dev).readOnly && dev.Memory?) && InRange(dev, address, |data|) && Reachable(dev, address)
    ensures r == OK ==> dst[..] == data
  {
    r := Write(dev, data, address);
    if r == OK {
      WritesView(dev, old(Base(dev).buffer[..]), Base(dev).buffer[..], address, data);
      r := Read(dev, dst, dst.Length, address, |data|);
      assert dst[..|data|] == dst[..];
    }
  }

  /** What has been erased reads as zeros, through any stack of partitions. */
  method EraseThenRead(dev: Device, address: nat, dst: array<Byte>) returns (r: Err)
    requires WellFormed(dev) && dst != Base(dev).buffer && Request(address, dst.Length)
    requires dev.Memory? ==> address + dst.Length < U64_LIMIT
    requires dev.Partition? ==> !Base(dev).readOnly && Divides(Base(dev).geometry.eraseSize, address, dst.Length)
    requires dev.Partition? && InRange(dev, address, dst.Length) ==>
               && Aligned(dev, address, dst.Length, Base(dev).geometry.eraseSize)
               && Aligned(dev, address, dst.Length, Base(dev).geometry.readSize)
    requires dev.Partition? && dev.parent.Partition? && Passes(dev, address, dst.Length) && !InRange(dev, address, dst.Length) &&
             Translated(dev, address) >= 0 ==>
               Divides(Base(dev).geometry.eraseSize, Translated(dev, address), dst.Length)
    modifies Base(dev).buffer, dst
    ensures r == OK <==> !(Base(dev).readOnly && dev.Memory?) && InRange(dev, address, dst.Length) && Reachable(dev, address)
    ensures r == OK ==> forall i | 0 <= i < dst.Length :: dst[i] == 0
  {
    r := Erase(dev, address, dst.Length);
    if r == OK {
      WritesView(dev, old(Base(dev).buffer[..]), Base(dev).buffer[..], address, Repeat(0, dst.Length));
      r := Read(dev, dst, dst.Length, address, dst.Length);
      assert dst[..dst.Length] == Repeat(0, dst.Length);
    }
  }
}
