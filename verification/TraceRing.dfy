/**
 The ring buffer of the trace component. It offers contiguous regions: when a request does not fit before
 the end, the ring is shortened for one turn so that the region can start at offset 0.
 Offsets stand for pointers into the buffer; sums are 32-bit.
 */
module TraceRing {
  import opened Common

  /** The control fields. */
  datatype Ctl = Ctl(size: nat, cur: nat, rd: nat, wr: nat)

  predicate Ok(c: Ctl) {
    && c.cur <= c.size < U32_LIMIT
    && (if c.rd <= c.wr then c.cur == c.size && (c.size == 0 || c.wr < c.size) && (c.size == 0 ==> c.wr == 0)
        else c.rd < c.cur)
  }

  function Empty(size: nat): Ctl {
    Ctl(size, size, 0, 0)
  }

  /** The unread bytes. */
  function Unread(c: Ctl, data: seq<Byte>): seq<Byte>
    requires Ok(c) && |data| == c.size
  {
    if c.rd <= c.wr then data[c.rd..c.wr] else data[c.rd..c.cur] + data[..c.wr]
  }

  function Used(c: Ctl): int
    requires Ok(c)
  {
    if c.rd <= c.wr then c.wr - c.rd else c.cur - c.rd + c.wr
  }

  function Add32(a: nat, b: nat): nat
  {
    if a + b < U32_LIMIT then a + b else a + b - U32_LIMIT
  }

  /** esp_apptrace_rb_produce on the control fields: new fields and the offset of the region. */
  function ProduceOf(c: Ctl, n: nat): (Ctl, Option<nat>) {
    if c.rd <= c.wr then
      if Add32(c.wr, n) >= c.size then
        if c.rd == 0 then (c, None)
        else if Add32(c.wr, n) == c.size then (c.(wr := 0), Some(c.wr))
        else if n > c.rd - 1 then (c, None)
        else if c.rd == c.wr then (Ctl(c.size, if c.wr < c.size then c.size else c.wr, 0, n), Some(0))
        else (c.(cur := c.wr, wr := n), Some(0))
      else (c.(wr := Add32(c.wr, n)), Some(c.wr))
    else if n > c.rd - c.wr - 1 then (c, None)
    else (c.(wr := c.wr + n), Some(c.wr))
  }

  /** esp_apptrace_rb_consume. */
  function ConsumeOf(c: Ctl, n: nat): (Ctl, Option<nat>) {
    if c.rd <= c.wr then
      if Add32(c.rd, n) > c.wr then (c, None) else (c.(rd := Add32(c.rd, n)), Some(c.rd))
    else if Add32(c.rd, n) > c.cur then (c, None)
    else if Add32(c.rd, n) == c.cur then (c.(rd := 0, cur := if c.cur < c.size then c.size else c.cur), Some(c.rd))
    else (c.(rd := Add32(c.rd, n)), Some(c.rd))
  }

  /** esp_apptrace_rb_read_size_get. */
  function ReadSize(c: Ctl): int {
    if c.rd <= c.wr then c.wr - c.rd else c.cur - c.rd
  }

  /** esp_apptrace_rb_write_size_get. */
  function WriteSize(c: Ctl): int {
    if c.rd <= c.wr then
      if c.size - c.wr != 0 && c.rd == 0 then c.size - c.wr - 1 else c.size - c.wr
    else c.rd - c.wr - 1
  }

  // ---------------------------------------------------------------------------------------------
  // One operation
  // ---------------------------------------------------------------------------------------------

  function Fill(data: seq<Byte>, at: nat, bytes: seq<Byte>): (r: seq<Byte>)
    requires at + |bytes| <= |data|
    ensures |r| == |data|
  {
    data[..at] + bytes + data[at + |bytes|..]
  }

  /** The 32-bit sum of a write request wraps; a request behind the read position forms no sum. */
  predicate WriteWraps(c: Ctl, n: nat) {
    c.rd <= c.wr && c.wr + n >= U32_LIMIT
  }

  predicate ReadWraps(c: Ctl, n: nat) {
    c.rd + n >= U32_LIMIT
  }

  /** The four ways a request is granted. */
  lemma ProduceCases(c: Ctl, n: nat, c1: Ctl, at: nat)
    requires Ok(c) && !WriteWraps(c, n) && ProduceOf(c, n) == (c1, Some(at))
    ensures Ok(c1) && c1.size == c.size && at + n <= c.size
    ensures || (at == c.wr && c1 == c.(wr := c.wr + n))
            || (at == c.wr && c1 == c.(wr := 0) && 0 < c.rd <= c.wr && c.wr + n == c.size)
            || (at == 0 && c1 == Ctl(c.size, c.size, 0, n) && c.rd == c.wr && n < c.rd)
            || (at == 0 && c1 == c.(cur := c.wr, wr := n) && n < c.rd < c.wr)
  {
  }

  lemma FillKeeps(data: seq<Byte>, at: nat, bytes: seq<Byte>, lo: nat, hi: nat)
    requires at + |bytes| <= |data| && lo <= hi <= |data| && (hi <= at || at + |bytes| <= lo)
    ensures Fill(data, at, bytes)[lo..hi] == data[lo..hi]
  {
  }

  lemma FillHas(data: seq<Byte>, at: nat, bytes: seq<Byte>, lo: nat)
    requires at + |bytes| <= |data| && lo <= at
    ensures Fill(data, at, bytes)[lo..at + |bytes|] == data[lo..at] + bytes
  {
  }

  /**
   A successful request yields a region inside the buffer, away from the unread bytes, and once it is
   filled the unread bytes are the old ones followed by the new ones.
   */
  lemma ProduceAppends(c: Ctl, data: seq<Byte>, bytes: seq<Byte>, c1: Ctl, at: nat)
    requires Ok(c) && |data| == c.size && !WriteWraps(c, |bytes|) && ProduceOf(c, |bytes|) == (c1, Some(at))
    ensures Ok(c1) && c1.size == c.size && at + |bytes| <= c.size
    ensures Unread(c, Fill(data, at, bytes)) == Unread(c, data)
    ensures Unread(c1, Fill(data, at, bytes)) == Unread(c, data) + bytes
  {
    ProduceCases(c, |bytes|, c1, at);
    var d := Fill(data, at, bytes);
    if at == c.wr && c.rd <= c.wr {
      FillHas(data, at, bytes, c.rd);
      FillKeeps(data, at, bytes, c.rd, c.wr);
      assert d[..0] == [] && d[c.rd..c.wr + |bytes|] + [] == d[c.rd..c.wr + |bytes|];
    } else if at == c.wr {
      FillHas(data, at, bytes, 0);
      FillKeeps(data, at, bytes, c.rd, c.cur);
      FillKeeps(data, at, bytes, 0, c.wr);
      assert data[c.rd..c.cur] + data[..c.wr] + bytes == data[c.rd..c.cur] + (data[..c.wr] + bytes);
    } else {
      FillHas(data, 0, bytes, 0);
      FillKeeps(data, 0, bytes, c.rd, c.wr);
      assert data[..0] + bytes == bytes;
    }
  }

  /** A successful read hands out the oldest unread bytes, in order and in one piece. */
  lemma ConsumeTakes(c: Ctl, data: seq<Byte>, n: nat, c1: Ctl, at: nat)
    requires Ok(c) && |data| == c.size && !ReadWraps(c, n) && ConsumeOf(c, n) == (c1, Some(at))
    ensures Ok(c1) && c1.size == c.size && at + n <= c.size
    ensures Unread(c, data) == data[at..at + n] + Unread(c1, data)
  {
    if c.rd <= c.wr {
      SplitSlice(data, c.rd, n, c.wr, []);
    } else {
      ConsumeTakesWrapped(c, data, n, c1, at);
    }
  }

  lemma ConsumeTakesWrapped(c: Ctl, data: seq<Byte>, n: nat, c1: Ctl, at: nat)
    requires Ok(c) && c.rd > c.wr && |data| == c.size && !ReadWraps(c, n) && ConsumeOf(c, n) == (c1, Some(at))
    ensures Unread(c, data) == data[at..at + n] + Unread(c1, data)
  {
    SplitSlice(data, c.rd, n, c.cur, data[..c.wr]);
    assert data[0..c.wr] == data[..c.wr];
  }

  lemma SplitSlice(data: seq<Byte>, lo: nat, n: nat, hi: nat, rest: seq<Byte>)
    requires lo + n <= hi <= |data|
    ensures data[lo..hi] == data[lo..lo + n] + data[lo + n..hi]
    ensures data[lo..hi] + rest == data[lo..lo + n] + (data[lo + n..hi] + rest)
    ensures lo + n == hi ==> data[lo..hi] + rest == data[lo..lo + n] + rest
  {
  }

  /** A read is refused exactly when it asks for more than the contiguous part, unless its sum wraps. */
  lemma ConsumeIff(c: Ctl, n: nat)
    requires Ok(c) && n < U32_LIMIT
    ensures ConsumeOf(c, n).1 == None <==> !ReadWraps(c, n) && n > ReadSize(c)
    ensures ConsumeOf(c, n).1 == None ==> ConsumeOf(c, n).0 == c
  {
  }

  lemma ProduceRefuses(c: Ctl, n: nat)
    ensures ProduceOf(c, n).1 == None ==> ProduceOf(c, n).0 == c
  {
  }

  /** The region asked for is refused or granted exactly so. */
  lemma ProduceIff(c: Ctl, n: nat)
    requires Ok(c) && n < U32_LIMIT
    ensures ProduceOf(c, n).1.Some? <==>
            || WriteWraps(c, n)
            || (c.rd <= c.wr && c.wr + n < c.size) || (0 < c.rd <= c.wr && (c.wr + n == c.size || n < c.rd))
            || (c.rd > c.wr && n < c.rd - c.wr)
  {
  }

  /** Both sizes are safe requests, and asking for the write size never shortens the ring. */
  lemma SizesAreSafe(c: Ctl, n: nat)
    requires Ok(c)
    ensures 0 <= ReadSize(c) && 0 <= WriteSize(c)
    ensures n <= ReadSize(c) ==> ConsumeOf(c, n).1.Some?
    ensures 0 < n <= WriteSize(c) ==>
              ProduceOf(c, n).1.Some? && ProduceOf(c, n).0.cur == c.cur && ProduceOf(c, n).0.rd == c.rd
    ensures ReadSize(c) == 0 <==> Used(c) == 0
    ensures WriteSize(c) == 0 <==> c.cur == 0 || Used(c) == c.cur - 1
  {
  }

  /** What a write is granted lies inside the buffer exactly if its 32-bit sum does not wrap. */
  lemma WritesStayInsideIff(c: Ctl, n: nat)
    requires Ok(c) && n < U32_LIMIT
    ensures (ProduceOf(c, n).1.Some? ==> ProduceOf(c, n).1.value + n <= c.size) <==> !WriteWraps(c, n)
    ensures WriteWraps(c, n) ==> ProduceOf(c, n).1 == Some(c.wr) && ProduceOf(c, n).0.wr < c.wr
  {
  }

  /** Likewise for reads. */
  lemma ReadsStayInsideIff(c: Ctl, n: nat)
    requires Ok(c) && n < U32_LIMIT
    ensures (ConsumeOf(c, n).1.Some? ==> ConsumeOf(c, n).1.value + n <= c.size) <==> !ReadWraps(c, n)
    ensures ReadWraps(c, n) ==> ConsumeOf(c, n).1 == Some(c.rd)
  {
  }

  /** A wrapped read moves the read position back: two unread bytes become ten, and a wrapped write loses five. */
  lemma WrappedRequestsBreak()
    ensures var c := Ctl(16, 16, 8, 10);
            && Ok(c) && Used(c) == 2
            && ConsumeOf(c, 0xFFFF_FFF8) == (Ctl(16, 16, 0, 10), Some(8)) && Used(Ctl(16, 16, 0, 10)) == 10
    ensures var c := Ctl(16, 16, 3, 8);
            && Ok(c) && Used(c) == 5
            && ProduceOf(c, 0xFFFF_FFFB) == (Ctl(16, 16, 3, 3), Some(8)) && Used(Ctl(16, 16, 3, 3)) == 0
  {
  }

  /** Where reading goes on in a ring that is not shortened. */
  function Advance(rd: nat, n: nat, size: nat): nat {
    if rd + n == size then 0 else rd + n
  }

  // ---------------------------------------------------------------------------------------------
  // All runs
  // ---------------------------------------------------------------------------------------------

  /** What the users of the ring do: ask for a region and fill it, or read. */
  datatype Op = Put(bytes: seq<Byte>) | Get(n: nat)

  /** The ring together with all bytes accepted and all bytes handed out so far. */
  datatype World = World(c: Ctl, data: seq<Byte>, accepted: seq<Byte>, delivered: seq<Byte>)

  predicate OkWorld(w: World) {
    Ok(w.c) && |w.data| == w.c.size
  }

  function DoPut(w: World, bytes: seq<Byte>): World {
    var (c1, at) := ProduceOf(w.c, |bytes|);
    if at.Some? && at.value + |bytes| <= |w.data|
    then World(c1, Fill(w.data, at.value, bytes), w.accepted + bytes, w.delivered)
    else w.(c := c1)
  }

  function DoGet(w: World, n: nat): World {
    var (c1, at) := ConsumeOf(w.c, n);
    if at.Some? && at.value + n <= |w.data|
    then World(c1, w.data, w.accepted, w.delivered + w.data[at.value..at.value + n])
    else w.(c := c1)
  }

  function Do(w: World, op: Op): World {
    if op.Put? then DoPut(w, op.bytes) else DoGet(w, op.n)
  }

  predicate Wraps(c: Ctl, op: Op) {
    match op
    case Put(bytes) => WriteWraps(c, |bytes|)
    case Get(n) => ReadWraps(c, n)
  }

  ghost predicate Fifo(w: World) {
    OkWorld(w) && w.accepted == w.delivered + Unread(w.c, w.data)
  }

  lemma DoKeepsFifo(w: World, op: Op)
    requires Fifo(w) && !Wraps(w.c, op)
    ensures Fifo(Do(w, op)) && Do(w, op).c.size == w.c.size
  {
    match op
    case Put(bytes) => PutKeepsFifo(w, bytes);
    case Get(n) => GetKeepsFifo(w, n);
  }

  lemma PutKeepsFifo(w: World, bytes: seq<Byte>)
    requires Fifo(w) && !WriteWraps(w.c, |bytes|)
    ensures Fifo(DoPut(w, bytes)) && DoPut(w, bytes).c.size == w.c.size
  {
    var (c1, at) := ProduceOf(w.c, |bytes|);
    if at.Some? {
      ProduceAppends(w.c, w.data, bytes, c1, at.value);
      AcceptKeepsFifo(w, c1, Fill(w.data, at.value, bytes), bytes);
    } else {
      ProduceRefuses(w.c, |bytes|);
    }
  }

  lemma AcceptKeepsFifo(w: World, c1: Ctl, data1: seq<Byte>, bytes: seq<Byte>)
    requires Fifo(w) && Ok(c1) && c1.size == w.c.size == |data1| && Unread(c1, data1) == Unread(w.c, w.data) + bytes
    ensures Fifo(World(c1, data1, w.accepted + bytes, w.delivered))
  {
    Regroup(w.delivered, Unread(w.c, w.data), Unread(c1, data1), bytes);
  }

  lemma GetKeepsFifo(w: World, n: nat)
    requires Fifo(w) && !ReadWraps(w.c, n)
    ensures Fifo(DoGet(w, n)) && DoGet(w, n).c.size == w.c.size
  {
    var (c1, at) := ConsumeOf(w.c, n);
    if at == None {
      GetRefused(w, n);
    } else {
      ConsumeTakes(w.c, w.data, n, c1, at.value);
      DoGetIs(w, n, c1, at.value);
      DeliverKeepsFifo(w, c1, at.value, n, DoGet(w, n));
    }
  }

  lemma GetRefused(w: World, n: nat)
    requires OkWorld(w) && ConsumeOf(w.c, n).1 == None
    ensures DoGet(w, n) == w
  {
  }

  lemma DoGetIs(w: World, n: nat, c1: Ctl, at: nat)
    requires ConsumeOf(w.c, n) == (c1, Some(at)) && at + n <= |w.data|
    ensures DoGet(w, n) == World(c1, w.data, w.accepted, w.delivered + w.data[at..at + n])
  {
  }

  lemma DeliverKeepsFifo(w: World, c1: Ctl, at: nat, n: nat, w1: World)
    requires Fifo(w) && Ok(c1) && c1.size == w.c.size && at + n <= w.c.size
    requires Unread(w.c, w.data) == w.data[at..at + n] + Unread(c1, w.data)
    requires w1 == World(c1, w.data, w.accepted, w.delivered + w.data[at..at + n])
    ensures Fifo(w1)
  {
    Regroup(w.delivered, w.data[at..at + n], Unread(w.c, w.data), Unread(c1, w.data));
  }

  lemma Regroup(a: seq<Byte>, out: seq<Byte>, all: seq<Byte>, rest: seq<Byte>)
    requires all == out + rest
    ensures a + all == a + out + rest
  {
  }

  function Play(w: World, ops: seq<Op>): World
    decreases |ops|
  {
    if ops == [] then w else Play(Do(w, ops[0]), ops[1..])
  }

  /** No request of the run wraps when it is made. */
  predicate NoneWraps(w: World, ops: seq<Op>)
    decreases |ops|
  {
    ops == [] || (!Wraps(w.c, ops[0]) && NoneWraps(Do(w, ops[0]), ops[1..]))
  }

  /** A run is its operations one after the other; nothing is skipped. */
  lemma {:induction false} PlayIs(w: World, a: seq<Op>, b: seq<Op>, op: Op)
    ensures Play(w, a + b) == Play(Play(w, a), b) && Play(w, [op]) == Do(w, op) && Play(w, []) == w
    decreases |a|
  {
    assert [op][1..] == [];
    if a == [] {
      assert a + b == b;
    } else {
      assert (a + b)[0] == a[0] && (a + b)[1..] == a[1..] + b;
      PlayIs(Do(w, a[0]), a[1..], b, op);
    }
  }

  /** A request that is granted is counted in full, one that is refused changes nothing. */
  lemma DoCounts(w: World, bytes: seq<Byte>, n: nat)
    requires OkWorld(w)
    ensures !WriteWraps(w.c, |bytes|) ==>
              if ProduceOf(w.c, |bytes|).1.Some? then DoPut(w, bytes).accepted == w.accepted + bytes else DoPut(w, bytes) == w
    ensures !ReadWraps(w.c, n) ==>
              if n <= ReadSize(w.c) then DoGet(w, n).delivered[..|w.delivered|] == w.delivered && |DoGet(w, n).delivered| == |w.delivered| + n
              else DoGet(w, n) == w
  {
    if ProduceOf(w.c, |bytes|).1.Some? && !WriteWraps(w.c, |bytes|) {
      WritesStayInsideIff(w.c, |bytes|);
    }
  }


  lemma {:induction false} PlayKeepsFifo(w: World, ops: seq<Op>)
    requires Fifo(w) && NoneWraps(w, ops)
    ensures Fifo(Play(w, ops)) && Play(w, ops).c.size == w.c.size
    decreases |ops|
  {
    if ops != [] {
      DoKeepsFifo(w, ops[0]);
      PlayKeepsFifo(Do(w, ops[0]), ops[1..]);
    }
  }

  /** Over every run, what has been read is a prefix of what has been written, and the rest is still unread. */
  lemma RingIsFifo(size: nat, data: seq<Byte>, ops: seq<Op>)
    requires size < U32_LIMIT && |data| == size && NoneWraps(World(Empty(size), data, [], []), ops)
    ensures var w := Play(World(Empty(size), data, [], []), ops);
            OkWorld(w) && w.delivered <= w.accepted && w.accepted[|w.delivered|..] == Unread(w.c, w.data)
  {
    var w0 := World(Empty(size), data, [], []);
    assert Unread(w0.c, data) == [];
    PlayKeepsFifo(w0, ops);
    var w := Play(w0, ops);
    assert w.accepted[..|w.delivered|] == w.delivered;
  }

  // ---------------------------------------------------------------------------------------------
  // The ring in memory
  // ---------------------------------------------------------------------------------------------

  class Ring {
    const data: array<Byte>
    var curSize: nat
    var rd: nat
    var wr: nat

    function Fields(): Ctl
      reads this
    {
      Ctl(data.Length, curSize, rd, wr)
    }

    ghost predicate Valid()
      reads this
    {
      Ok(Fields())
    }

    ghost function Contents(): seq<Byte>
      reads this, data
      requires Valid()
    {
      Unread(Fields(), data[..])
    }

    /** How many bytes the ring can still take without being shortened. */
    ghost function RoomLeft(): int
      reads this, data
      requires Valid()
    {
      if curSize == 0 then 0 else curSize - 1 - |Contents()|
    }

    /** esp_apptrace_rb_init. */
    constructor (data: array<Byte>)
      requires data.Length < U32_LIMIT
      ensures Valid() && this.data == data && Fields() == Empty(data.Length) && Contents() == []
    {
      this.data := data;
      curSize, rd, wr := data.Length, 0, 0;
    }

    method Produce(size: nat) returns (ptr: Option<nat>)
      requires Valid()
      modifies this
      ensures (Fields(), ptr) == ProduceOf(old(Fields()), size)
    {
      ptr := Some(wr);
      if rd <= wr {
        if Add32(wr, size) >= data.Length {
          if rd == 0 {
            return None;
          }
          if Add32(wr, size) == data.Length {
            wr := 0;
          } else {
            if size > rd - 1 {
              return None;
            }
            curSize := wr;
            wr := 0;
            ptr := Some(0);
            if rd == curSize {
              rd := 0;
              if curSize < data.Length {
                curSize := data.Length;
              }
            }
            wr := wr + size;
          }
        } else {
          wr := Add32(wr, size);
        }
      } else {
        if size > rd - wr - 1 {
          return None;
        }
        wr := wr + size;
      }
    }

    method Consume(size: nat) returns (ptr: Option<nat>)
      requires Valid()
      modifies this
      ensures (Fields(), ptr) == ConsumeOf(old(Fields()), size)
    {
      ptr := Some(rd);
      if rd <= wr {
        if Add32(rd, size) > wr {
          return None;
        }
        rd := Add32(rd, size);
      } else {
        if Add32(rd, size) > curSize {
          return None;
        } else if Add32(rd, size) == curSize {
          if curSize < data.Length {
            curSize := data.Length;
          }
          rd := 0;
        } else {
          rd := Add32(rd, size);
        }
      }
    }

    predicate IsEmpty()
      reads this
    {
      ReadSize(Fields()) == 0
    }

    lemma EmptyIs()
      requires Valid()
      ensures IsEmpty() <==> Contents() == []
    {
      SizesAreSafe(Fields(), 0);
      Room(Fields(), data[..]);
    }

    /** The ring is not shortened at present. */
    predicate Whole()
      reads this
    {
      curSize == data.Length
    }

    /** A read within the read size, which always succeeds. */
    method TakeOut(size: nat) returns (ptr: Option<nat>)
      requires Valid() && size <= ReadSize(Fields())
      modifies this
      ensures Valid() && ptr.Some? && ptr.value == old(rd) && ptr.value + size <= data.Length && (old(Whole()) ==> Whole())
      ensures old(Contents()) == data[ptr.value..ptr.value + size] + Contents()
      // asked for all there is in one piece, it takes everything or goes up to the end of the ring
      ensures size == old(ReadSize(Fields())) ==> Contents() == [] || ptr.value + size == old(curSize)
      ensures old(Whole()) ==> rd == Advance(old(rd), size, data.Length)
    {
      ghost var c := Fields();
      SizesAreSafe(c, size);
      ptr := Consume(size);
      ghost var d := data[..];
      ConsumeTakes(c, d, size, Fields(), ptr.value);
      assert d[ptr.value..ptr.value + size] == data[ptr.value..ptr.value + size];
    }

    /**
     esp_apptrace_membufs_down_buffer_write_nolock: copies as much of `input` as fits, in contiguous pieces.
     */
    method DownBufferWrite(input: seq<Byte>) returns (total: nat)
      requires Valid()
      modifies this, data
      ensures Valid() && curSize == old(curSize) && rd == old(rd)
      ensures total == Min(|input|, old(RoomLeft()))
      ensures Contents() == old(Contents()) + input[..total]
    {
      total := 0;
      ghost var before, room := Contents(), RoomLeft();
      ghost var content := before;
      Room(Fields(), data[..]);
      assert Appended(before, input, 0, content);
      while total < |input|
        invariant Valid() && curSize == old(curSize) && rd == old(rd) && total <= |input| && total <= room
        invariant Contents() == content && RoomLeft() == room - total
        invariant Appended(before, input, total, content)
        decreases |input| - total
      {
        var n := WriteSome(input, total);
        if n == 0 {
          break;
        }
        NextPiece(before, input, total, n, content);
        content := content + input[total..total + n];
        total := total + n;
      }
      assert content == before + input[..total];
    }

    /** One turn of the loop: the largest contiguous piece that fits. */
    method WriteSome(input: seq<Byte>, from: nat) returns (n: nat)
      requires Valid() && from < |input|
      modifies this, data
      ensures Valid() && curSize == old(curSize) && rd == old(rd) && from + n <= |input| && (n == 0 <==> old(RoomLeft()) == 0)
      ensures 0 <= RoomLeft() == old(RoomLeft()) - n
      ensures Contents() == old(Contents()) + input[from..from + n]
    {
      Room(Fields(), data[..]);
      n := WriteSize(Fields());
      if n == 0 {
        assert Contents() + input[from..from] == Contents();
        return;
      }
      if n > |input| - from {
        n := |input| - from;
      }
      WritePiece(input[from..from + n]);
      Room(Fields(), data[..]);
    }

    method WritePiece(piece: seq<Byte>)
      requires Valid() && 0 < |piece| <= WriteSize(Fields())
      modifies this, data
      ensures Valid() && curSize == old(curSize) && rd == old(rd) && Contents() == old(Contents()) + piece
    {
      ghost var c, d := Fields(), data[..];
      SizesAreSafe(c, |piece|);
      WriteSizeIs32(c);
      var ptr := Produce(|piece|);
      ProduceAppends(c, d, piece, Fields(), ptr.value);
      Copy(ptr.value, piece);
    }

    /** memcpy into the buffer. */
    method Copy(at: nat, piece: seq<Byte>)
      requires at + |piece| <= data.Length
      modifies data
      ensures data[..] == Fill(old(data[..]), at, piece)
    {
      forall k | 0 <= k < |piece| {
        data[at + k] := piece[k];
      }
    }
  }

  lemma WriteSizeIs32(c: Ctl)
    requires Ok(c)
    ensures c.wr + WriteSize(c) < U32_LIMIT
  {
  }

  ghost predicate Appended(before: seq<Byte>, input: seq<Byte>, t: nat, content: seq<Byte>) {
    t <= |input| && content == before + input[..t]
  }

  lemma NextPiece(before: seq<Byte>, input: seq<Byte>, t: nat, n: nat, content: seq<Byte>)
    requires t + n <= |input| && Appended(before, input, t, content)
    ensures Appended(before, input, t + n, content + input[t..t + n])
  {
  }

  /** One byte of the current capacity always stays free; nothing fits exactly when only that one is left. */
  lemma Room(c: Ctl, data: seq<Byte>)
    requires Ok(c) && |data| == c.size
    ensures |Unread(c, data)| == Used(c)
    ensures if c.cur == 0 then |Unread(c, data)| == 0 else |Unread(c, data)| < c.cur
    ensures 0 <= WriteSize(c) && (WriteSize(c) == 0 <==> c.cur == 0 || |Unread(c, data)| == c.cur - 1)
  {
  }
}
