/**
 Feeding the DAC's DMA buffers. A write cuts the caller's data into descriptor payloads, halving the
 remainder so that the last two descriptors are about equally long; the cut is specified by `Plan`, and both
 the streaming and the cyclic write are proved to follow it.
 */
module DacWriter {
  import opened Common
  import opened Sectors

  type Text = seq<Byte>

  /** The digital offset is added modulo 256. */
  function Shifted(b: Byte, offset: int): Byte {
    ((b as int + offset) % 256) as Byte
  }

  function Shift(t: Text, offset: int): (r: Text)
    ensures |r| == |t|
  {
    seq(|t|, i requires 0 <= i < |t| => Shifted(t[i], offset))
  }

  /** What is played differs from the data by the offset, modulo 256. */
  lemma ShiftedBy(b: Byte, offset: int)
    ensures (Shifted(b, offset) as int - b as int - offset) % 256 == 0
    ensures Shifted(b, 0) == b && Shifted(Shifted(b, offset), -offset) == b
  {
  }

  function Concat(parts: seq<Text>): Text {
    if parts == [] then [] else Concat(parts[..|parts| - 1]) + parts[|parts| - 1]
  }

  // ---------------------------------------------------------------------------------------------
  // The plan
  // ---------------------------------------------------------------------------------------------

  /** How many bytes the next descriptor takes when it holds `room`, and the split flag afterwards. */
  function Cut(n: nat, split: bool, room: nat): (nat, bool) {
    if n < 2 * room then
      (if split then (Min(n, room), false) else (Min(n / 2, room), true))
    else (Min(n, room), split)
  }

  /** The payload lengths for `n` bytes; a one-byte remainder may be cut into an empty and a full payload. */
  function Plan(n: nat, split: bool, room: nat): seq<nat>
    requires room > 0
    decreases 2 * n + if split then 0 else 1
  {
    if n == 0 then [] else
    var (w, next) := Cut(n, split, room);
    [w] + Plan(n - w, next, room)
  }

  function Total(lens: seq<nat>): nat {
    if lens == [] then 0 else lens[0] + Total(lens[1..])
  }

  /** Every byte is planned once, and no payload exceeds its buffer. */
  lemma {:induction false} PlanCovers(n: nat, split: bool, room: nat)
    requires room > 0
    ensures Total(Plan(n, split, room)) == n
    ensures forall i | 0 <= i < |Plan(n, split, room)| :: Plan(n, split, room)[i] <= room
    decreases 2 * n + if split then 0 else 1
  {
    if n > 0 {
      var (w, next) := Cut(n, split, room);
      PlanCovers(n - w, next, room);
    }
  }

  /** The number of descriptors a write takes. */
  lemma {:induction false} PlanLength(n: nat, room: nat)
    requires room > 0 && n > 0
    ensures |Plan(n, false, room)| == if n < room then 2 else n / room + 1
    decreases n
  {
    if n >= 2 * room {
      PlanLength(n - room, room);
      OneLess(n, room);
    } else {
      assert Plan(n, false, room) == [n / 2] + Plan(n - n / 2, true, room);
      if n >= room {
        QuotientIs(n, 1, room);
      }
    }
  }

  lemma OneLess(n: nat, d: nat)
    requires d > 0 && n >= d
    ensures n / d == (n - d) / d + 1
  {
    Quotient(n - d, d);
    var q := (n - d) / d;
    assert (q + 1) * d == q * d + d;
    QuotientIs(n, q + 1, d);
  }

  /** The data is spread evenly: the last two payloads differ by at most one byte, the others are full. */
  lemma {:induction false} PlanIsEven(n: nat, room: nat)
    requires room > 0 && n > 0
    ensures var p := Plan(n, false, room); var k := |p|;
                                           && k >= 2 && p[k - 2] <= p[k - 1] <= p[k - 2] + 1 && p[k - 1] > 0
                                           && forall i | 0 <= i < k - 2 :: p[i] == room
    decreases n
  {
    if n >= 2 * room {
      PlanIsEven(n - room, room);
    } else {
      assert Plan(n, false, room) == [n / 2] + Plan(n - n / 2, true, room);
      assert Plan(n - n / 2, true, room) == [n - n / 2];
    }
  }

  /** What the first `k` descriptors of the plan take. */
  function Prefix(lens: seq<nat>, k: nat): seq<nat> {
    if |lens| <= k then lens else lens[..k]
  }

  lemma {:induction false} TotalSplit(lens: seq<nat>, k: nat)
    requires k <= |lens|
    ensures Total(lens) == Total(lens[..k]) + Total(lens[k..])
  {
    if k > 0 {
      TotalSplit(lens[1..], k - 1);
      assert lens[1..][..k - 1] == lens[..k][1..];
    } else {
      assert lens[0..] == lens;
    }
  }

  lemma {:induction false} TotalPositive(lens: seq<nat>, i: nat)
    requires i < |lens| && lens[i] > 0
    ensures Total(lens) > 0
  {
    if i > 0 { TotalPositive(lens[1..], i - 1); }
  }

  /**
   A cyclic write passes its size check for up to descNum * bufSize bytes, but everything is loaded exactly
   if the data is strictly shorter than the descriptors together hold.
   */
  lemma CyclicLoadsAll(n: nat, room: nat, descNum: nat)
    requires room > 0 && n > 0 && descNum >= 2
    ensures Total(Prefix(Plan(n, false, room), descNum)) == n <==> n < descNum * room
  {
    PlanCovers(n, false, room);
    PlanIsEven(n, room);
    PrefixIsAll(Plan(n, false, room), descNum);
    PlanHasRoom(n, room, descNum);
  }

  /** The same with empty data, of which nothing is planned, so that no descriptor is loaded. */
  lemma RingLoadsAll(n: nat, room: nat, descNum: nat)
    requires room > 0 && descNum >= 2
    ensures Total(Prefix(Plan(n, false, room), descNum)) == n <==> n < descNum * room
    ensures |Prefix(Plan(n, false, room), descNum)| == 0 <==> n == 0
  {
    if n > 0 {
      CyclicLoadsAll(n, room, descNum);
      PlanIsEven(n, room);
    } else {
      MulAtLeast(descNum, room);
    }
  }

  lemma PrefixIsAll(lens: seq<nat>, k: nat)
    requires lens != [] && lens[|lens| - 1] > 0
    ensures Total(Prefix(lens, k)) == Total(lens) <==> |lens| <= k
  {
    if |lens| > k {
      TotalSplit(lens, k);
      TotalPositive(lens[k..], |lens| - 1 - k);
    }
  }

  lemma PlanHasRoom(n: nat, room: nat, descNum: nat)
    requires room > 0 && n > 0 && descNum >= 2
    ensures |Plan(n, false, room)| <= descNum <==> n < descNum * room
  {
    PlanLength(n, room);
    QuotientBelow(n, room, descNum);
    if n < room {
      MulAtLeast(descNum, room);
    }
  }

  /** Data of exactly the total buffer size, which the documentation allows, loses the second half of a buffer. */
  lemma FullRingLosesHalf(room: nat, descNum: nat)
    requires room > 0 && descNum >= 2
    ensures Total(Prefix(Plan(descNum * room, false, room), descNum)) == descNum * room - (room - room / 2)
  {
    var p := Plan(descNum * room, false, room);
    FullRingPlan(room, descNum);
    PlanCovers(descNum * room, false, room);
    TotalSplit(p, descNum);
    assert p[descNum..] == [p[descNum]];
    assert Total([p[descNum]]) == p[descNum] + Total([p[descNum]][1..]);
  }

  lemma {:induction false} FullRingPlan(room: nat, m: nat)
    requires room > 0 && m >= 1
    ensures m * room > 0
    ensures var p := Plan(m * room, false, room); |p| == m + 1 && p[m] == room - room / 2
    decreases m
  {
    if m == 1 {
      assert Plan(room, false, room) == [room / 2] + Plan(room - room / 2, true, room);
      assert Plan(room - room / 2, true, room) == [room - room / 2];
    } else {
      FullRingPlan(room, m - 1);
      assert m * room == (m - 1) * room + room;
      MulAtLeast(m - 1, room);
      assert Plan(m * room, false, room) == [room] + Plan((m - 1) * room, false, room);
    }
  }

  lemma MulAtLeast(a: nat, b: nat)
    requires a >= 1
    ensures a * b >= b
  {
  }

  lemma QuotientBelow(n: nat, d: nat, m: nat)
    requires d > 0
    ensures n / d < m <==> n < m * d
  {
    Quotient(n, d);
    if n / d < m { LessMul(n / d, m, d); } else { MulOrder(m, n / d, d); }
  }

  lemma MulOrder(a: nat, b: nat, d: nat)
    requires a <= b
    ensures a * d <= b * d
  {
    if a < b { LessMul(a, b, d); }
  }

  // ---------------------------------------------------------------------------------------------
  // The driver
  // ---------------------------------------------------------------------------------------------

  datatype Err = OK | InvalidArg | InvalidState | Timeout

  /** Where byte `k` of a payload lies: in the high half of a 16-bit slot when the driver expands the data. */
  function Slot(k: int, coeff: int): int {
    if coeff == 2 then 2 * k + 1 else k
  }

  /** The payload a buffer delivers to the DAC. */
  predicate Carries(buf: seq<Byte>, coeff: int, payload: Text) {
    forall k | 0 <= k < |payload| :: 0 <= Slot(k, coeff) < |buf| && buf[Slot(k, coeff)] == payload[k]
  }

  /** The DAC reads little-endian 16-bit words when data is expanded: their high bytes are the payload, in order. */
  lemma HighBytesCarry(buf: seq<Byte>, payload: Text, k: nat)
    requires k < |payload| && Carries(buf, 2, payload)
    ensures 2 * k + 1 < |buf|
    ensures (buf[2 * k] as int + 256 * buf[2 * k + 1] as int) / 256 == payload[k] as int
  {
    assert Slot(k, 2) == 2 * k + 1;
  }

  /** Otherwise the buffer starts with the payload. */
  lemma BytesCarry(buf: seq<Byte>, payload: Text)
    requires Carries(buf, 1, payload)
    ensures payload <= buf
  {
    assert forall k | 0 <= k < |payload| :: Slot(k, 1) == k;
    assert |payload| > 0 ==> Slot(|payload| - 1, 1) < |buf|;
  }

  /** Loading `n` bytes of data expanded to 16 bits stores to every second byte, from index 1 on, of a buffer of `len`. */
  predicate StoresInside(n: nat, len: nat) {
    forall i | 0 <= i < Min(2 * n, len) && i % 2 == 0 :: i + 1 < len
  }

  /** The source stores behind the buffer exactly if its size is odd and the data fills it. */
  lemma StoresInsideIff(n: nat, len: nat)
    ensures StoresInside(n, len) <==> len % 2 == 0 || 2 * n <= len
  {
    if len % 2 == 1 && 2 * n > len {
      assert (len - 1) % 2 == 0 && len - 1 < Min(2 * n, len);
    }
  }

  /** What is passed on to be loaded, and the flag afterwards: half of the rest the first time it is short, then all of it. */
  function Halved(n: nat, split: bool, coeff: nat, len: nat): (nat, bool) {
    if n * coeff < 2 * len then (if split then (n, false) else (n / 2, true)) else (n, split)
  }

  /** Every load of a write of `n` bytes, expanded to 16 bits, that starts with this flag stores inside its buffer. */
  predicate LoadsInside(n: nat, split: bool, len: nat)
    requires len > 1
    decreases Measure(n, split)
  {
    n > 0 ==>
      var (size, next) := Halved(n, split, 2, len);
      StoresInside(size, len) && LoadsInside(n - Min(2 * size, len) / 2, next, len)
  }

  /**
   An odd buffer size is good for short writes only, and for less if the flag, which is static, is still set because an
   earlier write timed out between its last two descriptors.
   */
  lemma {:induction false} OddBufferWrites(n: nat, split: bool, len: nat)
    requires len > 1
    ensures LoadsInside(n, split, len) <==> len % 2 == 0 || (n < len && (split ==> 2 * n <= len))
    decreases Measure(n, split)
  {
    if n > 0 {
      var (size, next) := Halved(n, split, 2, len);
      StoresInsideIff(size, len);
      OddBufferWrites(n - Min(2 * size, len) / 2, next, len);
    }
  }

  /** Three bytes for buffers of five fit with the flag clear and are stored one byte too far with the flag set. */
  lemma LeftoverFlagOverruns()
    ensures LoadsInside(3, false, 5) && !LoadsInside(3, true, 5) && !StoresInside(Halved(3, true, 2, 5).0, 5)
  {
    OddBufferWrites(3, false, 5);
    OddBufferWrites(3, true, 5);
    StoresInsideIff(3, 5);
  }

  class Dac {
    const coeff: nat       // DAC_16BIT_ALIGN_COEFF
    const bufSize: nat
    const descNum: nat
    const offset: int
    const bufs: seq<array<Byte>>

    var enabled: bool
    var isAsync: bool
    var isCyclic: bool
    var splitFlag: bool
    ghost var log: seq<Text>  // payload of every descriptor handed to the DMA

    ghost predicate Valid() {
      && (coeff == 1 || coeff == 2) && bufSize > 0 && (coeff == 2 ==> bufSize % 2 == 0)
      && descNum >= 2 && |bufs| == descNum
      && (forall i | 0 <= i < descNum :: bufs[i].Length == bufSize)
    }

    /** What dac_continuous_new_channels sets up; with expansion to 16 bits the buffer size must be even here. */
    constructor (coeff: nat, bufs: seq<array<Byte>>, bufSize: nat, offset: int)
      requires coeff == 1 || (coeff == 2 && bufSize % 2 == 0)
      requires bufSize > 0 && |bufs| >= 2 && forall i | 0 <= i < |bufs| :: bufs[i].Length == bufSize
      ensures Valid() && this.coeff == coeff && this.bufs == bufs && this.bufSize == bufSize && this.offset == offset
      ensures !enabled && !isAsync && !isCyclic && !splitFlag && log == []
    {
      this.coeff, this.bufSize, this.descNum, this.offset, this.bufs := coeff, bufSize, |bufs|, offset, bufs;
      enabled, isAsync, isCyclic, splitFlag, log := false, false, false, false, [];
    }

    /** Bytes of data in `n` bytes of a buffer, n / DAC_16BIT_ALIGN_COEFF in the source. */
    function DataBytes(n: nat): nat {
      if coeff == 2 then n / 2 else n
    }

    /** Bytes of data per descriptor. */
    function Room(): nat {
      DataBytes(bufSize)
    }

    /** s_dac_load_data_into_buf, whenever it stores inside the buffer. */
    method LoadDataIntoBuf(dest: array<Byte>, src: array<Byte>, from: nat, n: nat) returns (loadBytes: nat)
      requires dest.Length == bufSize && dest != src && from + n <= src.Length
      requires if coeff == 2 then StoresInside(n, bufSize) else coeff == 1
      modifies dest
      ensures DataBytes(loadBytes) == Min(n, Room())
      ensures Carries(dest[..], coeff, Shift(src[from..from + Min(n, Room())], offset))
    {
      if coeff == 2 {
        StoresInsideIff(n, bufSize);
        loadBytes := if n * 2 > dest.Length then dest.Length else n * 2;
        LoadHighBytes(dest, src, from, loadBytes);
      } else {
        loadBytes := if n > dest.Length then dest.Length else n;
        LoadBytes(dest, src, from, loadBytes);
      }
    }

    method LoadHighBytes(dest: array<Byte>, src: array<Byte>, from: nat, loadBytes: nat)
      requires coeff == 2 && loadBytes % 2 == 0 && loadBytes <= dest.Length && dest != src && from + loadBytes / 2 <= src.Length
      modifies dest
      ensures Carries(dest[..], coeff, Shift(src[from..from + loadBytes / 2], offset))
    {
      var i := 0;
      while i < loadBytes
        invariant i % 2 == 0 && i <= loadBytes
        invariant forall k | 0 <= k < i / 2 :: dest[2 * k + 1] == Shifted(src[from + k], offset)
      {
        dest[i + 1] := Shifted(src[from + i / 2], offset);
        i := i + 2;
      }
    }

    method LoadBytes(dest: array<Byte>, src: array<Byte>, from: nat, loadBytes: nat)
      requires coeff == 1 && loadBytes <= dest.Length && dest != src && from + loadBytes <= src.Length
      modifies dest
      ensures Carries(dest[..], coeff, Shift(src[from..from + loadBytes], offset))
    {
      var i := 0;
      while i < loadBytes
        invariant i <= loadBytes
        invariant forall k | 0 <= k < i :: dest[k] == Shifted(src[from + k], offset)
      {
        dest[i] := Shifted(src[from + i], offset);
        i := i + 1;
      }
    }

    /** Waits for a free descriptor; the DMA may return any of them, or none in time. */
    method Receive() returns (desc: Option<nat>)
      requires Valid()
      ensures desc.Some? ==> desc.value < descNum
    {
      if * {
        desc := None;
      } else {
        var k: nat :| k < descNum;
        desc := Some(k);
      }
    }

    /** The source compares sizes in buffer bytes; in data bytes it is the same comparison. */
    lemma NearEnd(n: nat)
      requires Valid()
      ensures n * coeff < 2 * bufSize <==> n < 2 * Room()
    {
      if coeff == 1 {
        assert n * coeff == n && Room() == bufSize;
      } else {
        assert n * coeff == 2 * n && bufSize == 2 * Room();
      }
    }

    /** Takes half of the remainder the first time it is less than two buffers, and the rest the next time. */
    method HalveNearEnd(n: nat) returns (size: nat)
      requires Valid()
      modifies this`splitFlag
      ensures (size, splitFlag) == Halved(n, old(splitFlag), coeff, bufSize)
      ensures (Min(size, Room()), splitFlag) == Cut(n, old(splitFlag), Room()) && size <= n
    {
      size := n;
      NearEnd(n);
      if size * coeff < 2 * bufSize {
        if !splitFlag {
          size := size / 2;
          splitFlag := true;
        } else {
          splitFlag := false;
        }
      }
    }

    /** Some buffer has taken the payload, and the others have not changed. */
    twostate predicate InOneBuffer(payload: Text)
      reads bufs
    {
      exists d | 0 <= d < |bufs| :: Carries(bufs[d][..], coeff, payload) && OthersSame(d)
    }

    twostate predicate OthersSame(d: nat)
      requires d < |bufs|
      reads bufs
    {
      forall e | 0 <= e < |bufs| && bufs[e] != bufs[d] :: bufs[e][..] == old(bufs[e][..])
    }

    /** s_dac_wait_to_load_dma_data. */
    method WaitToLoad(src: array<Byte>, from: nat, n: nat) returns (err: Err, w: nat)
      requires Valid() && src !in bufs && from + n <= src.Length
      modifies bufs, this`splitFlag, this`log
      ensures err == OK || err == Timeout
      ensures err == Timeout ==> w == 0 && log == old(log) && splitFlag == old(splitFlag)
      ensures err == Timeout ==> forall d | 0 <= d < |bufs| :: bufs[d][..] == old(bufs[d][..])
      ensures err == OK ==> (w, splitFlag) == Cut(n, old(splitFlag), Room()) && w <= n
      ensures err == OK ==> log == old(log) + [Shift(src[..][from..from + w], offset)]
      // and that is what the buffer of some descriptor then holds
      ensures err == OK ==> InOneBuffer(Shift(src[..][from..from + w], offset))
    {
      w := 0;
      var desc := Receive();
      if desc.None? {
        return Timeout, 0;
      }
      var size := HalveNearEnd(n);
      StoresInsideIff(size, bufSize);
      var loadBytes := LoadDataIntoBuf(bufs[desc.value], src, from, size);
      w := DataBytes(loadBytes);
      assert src[..][from..from + w] == src[from..from + w];
      assert OthersSame(desc.value);
      log := log + [Shift(src[..][from..from + w], offset)];
      err := OK;
    }

    /** Loads one descriptor and moves on. */
    method LoadNext(src: array<Byte>, from: nat, ghost sent: seq<Text>, ghost split0: bool)
      returns (err: Err, next: nat, ghost sent1: seq<Text>)
      requires Valid() && src !in bufs && from < src.Length
      requires Sent(sent, src[..], from, splitFlag, split0, Room(), offset)
      modifies bufs, this`splitFlag, this`log
      ensures err == OK || err == Timeout
      ensures from <= next <= src.Length && Sent(sent1, src[..], next, splitFlag, split0, Room(), offset)
      ensures err == Timeout ==> log == old(log) && sent1 == sent && next == from
      ensures err == OK ==> exists p: Text :: log == old(log) + [p] && sent1 == sent + [p]
      ensures err == OK ==> Measure(src.Length - next, splitFlag) < Measure(src.Length - from, old(splitFlag))
    {
      var w;
      ghost var data := src[..];
      err, w := WaitToLoad(src, from, src.Length - from);
      assert src[..] == data;
      next, sent1 := from, sent;
      if err == OK {
        SentStep(sent, data, from, w, old(splitFlag), splitFlag, split0, Room(), offset);
        next, sent1 := from + w, sent + [Shift(data[from..from + w], offset)];
      }
    }

    /** The first loop of a write: at most one payload per descriptor. */
    method FillChain(src: array<Byte>, ghost split0: bool) returns (err: Err, done: nat, ghost sent: seq<Text>)
      requires Valid() && src !in bufs && split0 == splitFlag
      modifies bufs, this`splitFlag, this`log
      ensures err == OK || err == Timeout
      ensures done <= src.Length && log == old(log) + sent
      ensures |sent| <= descNum && (err == OK ==> done == src.Length || |sent| == descNum)
      ensures Sent(sent, src[..], done, splitFlag, split0, Room(), offset)
    {
      err, done, sent := OK, 0, [];
      assert src[..][..0] == [];
      var i := 0;
      while i < descNum && done < src.Length
        invariant done <= src.Length && log == old(log) + sent && err == OK && i == |sent| <= descNum
        invariant Sent(sent, src[..], done, splitFlag, split0, Room(), offset)
        decreases descNum - i
      {
        err, done, sent := LoadNext(src, done, sent, split0);
        if err != OK {
          return;
        }
        i := i + 1;
      }
    }

    /** The second loop: until everything is loaded or a descriptor does not come in time. */
    method KeepLoading(src: array<Byte>, done0: nat, ghost sent0: seq<Text>, ghost split0: bool)
      returns (err: Err, done: nat, ghost sent: seq<Text>)
      requires Valid() && src !in bufs && done0 <= src.Length
      requires Sent(sent0, src[..], done0, splitFlag, split0, Room(), offset)
      modifies bufs, this`splitFlag, this`log
      ensures err == OK || err == Timeout
      ensures done <= src.Length && (err == OK ==> done == src.Length)
      ensures exists more: seq<Text> :: sent == sent0 + more && log == old(log) + more
      ensures Sent(sent, src[..], done, splitFlag, split0, Room(), offset)
    {
      err, done, sent := OK, done0, sent0;
      ghost var more: seq<Text> := [];
      while done < src.Length
        invariant done <= src.Length && err == OK
        invariant sent == sent0 + more && log == old(log) + more
        invariant Sent(sent, src[..], done, splitFlag, split0, Room(), offset)
        decreases Measure(src.Length - done, splitFlag)
      {
        ghost var before := sent;
        err, done, sent := LoadNext(src, done, sent, split0);
        if err != OK {
          return;
        }
        more := more + [sent[|before|]];
      }
    }

    method LoadAll(src: array<Byte>, chainEmpty: bool, ghost split0: bool)
      returns (err: Err, done: nat, ghost sent: seq<Text>)
      requires Valid() && src !in bufs && split0 == splitFlag
      modifies bufs, this`splitFlag, this`log
      ensures err == OK || err == Timeout
      ensures done <= src.Length && (err == OK ==> done == src.Length) && log == old(log) + sent
      ensures Sent(sent, src[..], done, splitFlag, split0, Room(), offset)
    {
      err, done, sent := OK, 0, [];
      assert src[..][..0] == [];
      if chainEmpty {
        err, done, sent := FillChain(src, split0);
      }
      if err == OK {
        err, done, sent := KeepLoading(src, done, sent, split0);
      }
    }

    /**
     dac_continuous_write. `chainEmpty` says whether the DMA has run out of descriptors, which makes the first
     loop run; the mutex and every descriptor may time out.
     */
    method Write(src: array<Byte>, chainEmpty: bool) returns (err: Err, bytesLoaded: nat, ghost sent: seq<Text>)
      requires Valid() && src !in bufs
      modifies bufs, this`splitFlag, this`log, this`isCyclic
      ensures err == InvalidState <==> !enabled || isAsync
      ensures err != InvalidArg && log == old(log) + sent
      // what was loaded is the beginning of the data, and bytesLoaded says how much, timeout or not
      ensures bytesLoaded <= src.Length && Concat(sent) == Shift(src[..bytesLoaded], offset)
      ensures err == OK ==> bytesLoaded == src.Length
      // cut as planned
      ensures Lens(sent) <= Plan(src.Length, old(splitFlag), Room())
      ensures err == OK ==> Lens(sent) == Plan(src.Length, old(splitFlag), Room())
      // a complete write leaves the static flag clear if it found it clear, so the next one is cut as evenly
      ensures err == OK && !old(splitFlag) ==> !splitFlag
      ensures if err == OK then !isCyclic else isCyclic ==> old(isCyclic)
    {
      bytesLoaded, sent := 0, [];
      if !enabled || isAsync {
        return InvalidState, 0, [];
      }
      if * {
        return Timeout, 0, [];
      }
      isCyclic := false;
      err, bytesLoaded, sent := LoadAll(src, chainEmpty, splitFlag);
      SentIsPrefix(sent, src[..], bytesLoaded, splitFlag, old(splitFlag), Room(), offset);
    }

    /**
     dac_continuous_write_cyclically. Descriptor k gets the k-th payload of the plan; with more payloads than
     descriptors the rest of the data is silently left out. `tail` is the descriptor linked back to the first one;
     for empty data, which passes the checks, it is -1.
     */
    method WriteCyclically(src: array<Byte>) returns (err: Err, bytesLoaded: nat, tail: int, ghost sent: seq<Text>)
      requires Valid() && src !in bufs
      requires forall i, j | 0 <= i < j < descNum :: bufs[i] != bufs[j]
      modifies bufs, this`isCyclic
      ensures err == if !enabled || isAsync then InvalidState else if src.Length > bufSize * descNum then InvalidArg else OK
      ensures isCyclic == (err == OK || old(isCyclic))
      ensures err != OK ==> bytesLoaded == tail == 0 && sent == []
      ensures err == OK ==>
                && Lens(sent) == Prefix(Plan(src.Length, false, Room()), descNum)
                && bytesLoaded <= src.Length && Concat(sent) == Shift(src[..bytesLoaded], offset)
                && RingCarries(sent) && (bytesLoaded == src.Length <==> src.Length < descNum * Room())
      ensures err == OK ==> tail == |sent| - 1 < descNum && (tail == -1 <==> src.Length == 0)
    {
      bytesLoaded, tail, sent := 0, 0, [];
      if !enabled || isAsync {
        return InvalidState, 0, 0, [];
      }
      if src.Length > bufSize * descNum {
        return InvalidArg, 0, 0, [];
      }
      isCyclic := true;
      err := OK;
      var count: int;
      bytesLoaded, count, sent := LoadRing(src);
      tail := count - 1;
      LensTotal(sent);
      assert |Concat(sent)| == bytesLoaded;
      RingLoadsAll(src.Length, Room(), descNum);
    }

    /** Descriptor k holds payload k. */
    ghost predicate RingCarries(sent: seq<Text>)
      reads bufs
    {
      |sent| <= |bufs| && forall k | 0 <= k < |sent| :: Carries(bufs[k][..], coeff, sent[k])
    }

    method LoadRing(src: array<Byte>) returns (done: nat, i: nat, ghost sent: seq<Text>)
      requires Valid() && src !in bufs
      requires forall i, j | 0 <= i < j < descNum :: bufs[i] != bufs[j]
      modifies bufs
      ensures done <= src.Length && Concat(sent) == Shift(src[..done], offset)
      ensures Lens(sent) == Prefix(Plan(src.Length, false, Room()), descNum)
      ensures RingCarries(sent) && i == |sent|
    {
      done, i, sent := 0, 0, [];
      var split := 1;
      assert src[..][..0] == [];
      while i < descNum && done < src.Length
        invariant i == |sent| <= descNum && done <= src.Length && (split == 1 || split == 2)
        invariant Sent(sent, src[..], done, split == 2, false, Room(), offset)
        invariant RingCarries(sent)
        decreases descNum - i
      {
        done, split, sent := LoadNextSlot(i, src, done, split, sent);
        i := i + 1;
      }
      SentIsPrefix(sent, src[..], done, split == 2, false, Room(), offset);
    }

    method LoadNextSlot(i: nat, src: array<Byte>, done: nat, split: nat, ghost sent: seq<Text>)
      returns (next: nat, split1: nat, ghost sent1: seq<Text>)
      requires Valid() && src !in bufs && done < src.Length && |sent| == i < descNum && (split == 1 || split == 2)
      requires forall i, j | 0 <= i < j < descNum :: bufs[i] != bufs[j]
      requires Sent(sent, src[..], done, split == 2, false, Room(), offset) && RingCarries(sent)
      modifies bufs
      ensures (split1 == 1 || split1 == 2) && next <= src.Length && |sent1| == |sent| + 1
      ensures Sent(sent1, src[..], next, split1 == 2, false, Room(), offset) && RingCarries(sent1)
    {
      var w;
      ghost var data := src[..];
      w, split1 := LoadSlot(i, src, done, split);
      assert src[..] == data;
      SentStep(sent, data, done, w, split == 2, split1 == 2, false, Room(), offset);
      next, sent1 := done + w, sent + [Shift(data[done..done + w], offset)];
      forall k | 0 <= k < i ensures Carries(bufs[k][..], coeff, sent1[k]) {
        assert bufs[k] != bufs[i] && bufs[k][..] == old(bufs[k][..]) && sent1[k] == sent[k];
      }
    }

    /** The body of the cyclic loop: `split` is 1 or 2 and plays the part of the flag. */
    method LoadSlot(i: nat, src: array<Byte>, from: nat, split: nat) returns (w: nat, split1: nat)
      requires Valid() && i < descNum && src !in bufs && from < src.Length && (split == 1 || split == 2)
      requires split == 2 ==> src.Length - from < 2 * Room()
      modifies bufs[i]
      ensures (split1 == 1 || split1 == 2) && (w, split1 == 2) == Cut(src.Length - from, split == 2, Room())
      ensures from + w <= src.Length && Carries(bufs[i][..], coeff, Shift(src[..][from..from + w], offset))
    {
      var n := src.Length - from;
      NearEnd(n);
      split1 := if n * coeff < 2 * bufSize then 3 - split else 1;
      assert n / 1 == n;
      var size := if split1 == 2 then n / 2 else n / 1;
      StoresInsideIff(size, bufSize);
      var loadBytes := LoadDataIntoBuf(bufs[i], src, from, size);
      w := DataBytes(loadBytes);
      assert src[..][from..from + w] == src[from..from + w];
    }
  }

  /**
   A write has handed over the payloads `sent`, which hold the first `done` bytes of `data`, cut as planned. If the
   flag has been set since, the rest of the data fits one descriptor.
   */
  ghost predicate Sent(sent: seq<Text>, data: Text, done: nat, split: bool, split0: bool, room: nat, offset: int) {
    && room > 0 && done <= |data|
    && (split && !split0 ==> 0 < |data| - done <= room)
    && Concat(sent) == Shift(data[..done], offset)
    && Lens(sent) + Plan(|data| - done, split, room) == Plan(|data|, split0, room)
  }

  lemma SentIsPrefix(sent: seq<Text>, data: Text, done: nat, split: bool, split0: bool, room: nat, offset: int)
    requires Sent(sent, data, done, split, split0, room, offset)
    ensures Lens(sent) <= Plan(|data|, split0, room)
    ensures data[..done] <= data && Concat(sent) == Shift(data[..done], offset)
    ensures done == |data| ==> Lens(sent) == Plan(|data|, split0, room) && (!split0 ==> !split)
  {
  }

  lemma SentStep(sent: seq<Text>, data: Text, done: nat, w: nat, split: bool, split1: bool, split0: bool, room: nat, offset: int)
    requires Sent(sent, data, done, split, split0, room, offset) && done < |data| && done + w <= |data|
    requires (w, split1) == Cut(|data| - done, split, room)
    ensures Sent(sent + [Shift(data[done..done + w], offset)], data, done + w, split1, split0, room, offset)
    ensures Measure(|data| - (done + w), split1) < Measure(|data| - done, split)
  {
    var p := Shift(data[done..done + w], offset);
    assert (sent + [p])[..|sent|] == sent;
    ShiftGrows(data, done, w, offset);
    LensSnoc(sent, p);
    PlanMoves(Lens(sent), |data| - done, w, split, split1, room);
  }

  lemma ShiftGrows(data: Text, done: nat, w: nat, offset: int)
    requires done + w <= |data|
    ensures Shift(data[..done + w], offset) == Shift(data[..done], offset) + Shift(data[done..done + w], offset)
  {
  }

  lemma PlanMoves(lens: seq<nat>, n: nat, w: nat, split: bool, split1: bool, room: nat)
    requires room > 0 && n > 0 && w <= n && (w, split1) == Cut(n, split, room)
    ensures lens + Plan(n, split, room) == lens + [w] + Plan(n - w, split1, room)
    ensures Measure(n - w, split1) < Measure(n, split)
  {
    assert lens + ([w] + Plan(n - w, split1, room)) == lens + [w] + Plan(n - w, split1, room);
  }

  /** The measure of the loops: a one-byte remainder may load nothing, but then the flag flips. */
  function Measure(n: nat, split: bool): nat {
    2 * n + if split then 0 else 1
  }

  function Lens(parts: seq<Text>): (r: seq<nat>)
    ensures |r| == |parts|
  {
    if parts == [] then [] else Lens(parts[..|parts| - 1]) + [|parts[|parts| - 1]|]
  }

  lemma LensSnoc(parts: seq<Text>, p: Text)
    ensures Lens(parts + [p]) == Lens(parts) + [|p|]
  {
    assert (parts + [p])[..|parts|] == parts;
  }

  lemma {:induction false} LensTotal(parts: seq<Text>)
    ensures Total(Lens(parts)) == |Concat(parts)|
  {
    if parts != [] {
      var k := |parts| - 1;
      LensTotal(parts[..k]);
      TotalSplit(Lens(parts), k);
      assert Lens(parts)[..k] == Lens(parts[..k]);
      assert Lens(parts)[k..] == [|parts[k]|];
      assert Total([|parts[k]|]) == |parts[k]| + Total([|parts[k]|][1..]);
    }
  }
}
