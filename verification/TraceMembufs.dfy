/**
 The two trace blocks: records are allocated in one block while the host reads the other. Every record is
 preceded by a header with the allocated and the written size, so that the host can take the block apart
 and tell finished records from unfinished ones. Data from the host arrives in a block as it is swapped in.
 */
module TraceMembufs {
  import opened Common
  import opened TraceRing

  // ---------------------------------------------------------------------------------------------
  // Block format
  // ---------------------------------------------------------------------------------------------

  /** A record: the core that asked for it, whether it has been put back, and its payload. */
  datatype Rec = Rec(core: nat, done: bool, payload: seq<Byte>)

  /** What a header says: allocated size (with the core in bit 15 of a wide one) and written size. */
  datatype Head = Head(block: nat, wr: nat)

  function HeaderSize(wide: bool): nat { if wide then 4 else 2 }

  function WordSize(wide: bool): nat { if wide then 2 else 1 }

  function SizeField(wide: bool, r: Rec): nat {
    if wide then r.core * 0x8000 + |r.payload| else |r.payload|
  }

  function HeadOf(wide: bool, r: Rec): Head {
    Head(SizeField(wide, r), if r.done then SizeField(wide, r) else 0)
  }

  /** The size can be written in the header and read back. */
  predicate FitsFormat(wide: bool, r: Rec) {
    if wide then |r.payload| < 0x8000 && r.core < 2 else |r.payload| < 256
  }

  predicate FieldOk(wide: bool, x: nat) {
    x < if wide then 0x1_0000 else 0x100
  }

  function Word(wide: bool, x: nat): (w: seq<Byte>)
    requires FieldOk(wide, x)
    ensures |w| == WordSize(wide)
  {
    if wide then [(x % 256) as Byte, (x / 256) as Byte] else [x as Byte]
  }

  function FromWord(w: seq<Byte>): nat
    requires |w| == 1 || |w| == 2
  {
    if |w| == 1 then w[0] as nat else w[0] as nat + 256 * w[1] as nat
  }

  lemma WordRoundTrip(wide: bool, x: nat)
    requires FieldOk(wide, x)
    ensures FromWord(Word(wide, x)) == x
  {
  }

  function HeaderBytes(wide: bool, h: Head): (b: seq<Byte>)
    requires FieldOk(wide, h.block) && FieldOk(wide, h.wr)
    ensures |b| == HeaderSize(wide)
  {
    Word(wide, h.block) + Word(wide, h.wr)
  }

  function RecBytes(wide: bool, r: Rec): (b: seq<Byte>)
    requires FitsFormat(wide, r)
    ensures |b| == HeaderSize(wide) + |r.payload|
  {
    HeaderBytes(wide, HeadOf(wide, r)) + r.payload
  }

  predicate AllFit(wide: bool, recs: seq<Rec>) {
    forall i | 0 <= i < |recs| :: FitsFormat(wide, recs[i])
  }

  function Serialize(wide: bool, recs: seq<Rec>): seq<Byte>
    requires AllFit(wide, recs)
  {
    if recs == [] then [] else RecBytes(wide, recs[0]) + Serialize(wide, recs[1..])
  }

  /** A record as the host finds it: its header and the bytes behind it. */
  datatype Item = Item(head: Head, payload: seq<Byte>)

  function ItemOf(wide: bool, r: Rec): Item {
    Item(HeadOf(wide, r), r.payload)
  }

  function Items(wide: bool, recs: seq<Rec>): seq<Item> {
    seq(|recs|, i requires 0 <= i < |recs| => ItemOf(wide, recs[i]))
  }

  /** The host's side: takes a block apart by its headers alone. */
  function Parse(wide: bool, b: seq<Byte>): Option<seq<Item>>
    decreases |b|
  {
    if b == [] then Some([])
    else if |b| < HeaderSize(wide) then None
    else
      var w := WordSize(wide);
      var h := Head(FromWord(b[..w]), FromWord(b[w..2 * w]));
      var next := HeaderSize(wide) + if wide then h.block % 0x8000 else h.block;
      if |b| < next then None
      else
        match Parse(wide, b[next..])
        case None => None
        case Some(rest) => Some([Item(h, b[HeaderSize(wide)..next])] + rest)
  }

  /** Whatever the payloads are, the host recovers exactly the records, headers and payloads, in order. */
  lemma {:induction false} ParseSerialize(wide: bool, recs: seq<Rec>)
    requires AllFit(wide, recs)
    ensures Parse(wide, Serialize(wide, recs)) == Some(Items(wide, recs))
    decreases |recs|
  {
    if recs == [] {
      assert Items(wide, recs) == [];
    } else {
      ParseOne(wide, recs[0], Serialize(wide, recs[1..]));
      ParseSerialize(wide, recs[1..]);
      ItemsCons(wide, recs);
    }
  }

  lemma ItemsCons(wide: bool, recs: seq<Rec>)
    requires recs != []
    ensures Items(wide, recs) == [ItemOf(wide, recs[0])] + Items(wide, recs[1..])
  {
  }

  lemma SlicesOf(w1: seq<Byte>, w2: seq<Byte>, payload: seq<Byte>, rest: seq<Byte>)
    ensures var b := w1 + w2 + payload + rest;
            && b[..|w1|] == w1 && b[|w1|..|w1| + |w2|] == w2
            && b[|w1| + |w2|..|w1| + |w2| + |payload|] == payload && b[|w1| + |w2| + |payload|..] == rest
  {
  }

  lemma ParseOne(wide: bool, r: Rec, rest: seq<Byte>)
    requires FitsFormat(wide, r)
    ensures Parse(wide, RecBytes(wide, r) + rest) ==
            match Parse(wide, rest)
            case None => None
            case Some(items) => Some([ItemOf(wide, r)] + items)
  {
    var h := HeadOf(wide, r);
    var w1, w2 := Word(wide, h.block), Word(wide, h.wr);
    SlicesOf(w1, w2, r.payload, rest);
    WordRoundTrip(wide, h.block);
    WordRoundTrip(wide, h.wr);
    assert h.block % 0x8000 == |r.payload| || !wide by {
      if wide { assert h.block == 0x8000 * r.core + |r.payload|; }
    }
    assert RecBytes(wide, r) + rest == w1 + w2 + r.payload + rest;
  }

  /** Finished and unfinished records look different, except that an empty record of core 0 always looks finished. */
  lemma DoneIsVisible(wide: bool, r: Rec)
    ensures HeadOf(wide, r).wr == HeadOf(wide, r).block <==> r.done || (r.payload == [] && (wide ==> r.core == 0))
  {
  }

  lemma {:induction false} SerializeConcat(wide: bool, a: seq<Rec>, b: seq<Rec>)
    requires AllFit(wide, a) && AllFit(wide, b)
    ensures AllFit(wide, a + b) && Serialize(wide, a + b) == Serialize(wide, a) + Serialize(wide, b)
    decreases |a|
  {
    if a == [] {
      assert a + b == b;
    } else {
      assert (a + b)[0] == a[0] && (a + b)[1..] == a[1..] + b;
      SerializeConcat(wide, a[1..], b);
    }
  }

  /** Where record `i` lies in the serialization. */
  function Offset(wide: bool, recs: seq<Rec>, i: nat): nat
    requires AllFit(wide, recs) && i <= |recs|
  {
    |Serialize(wide, recs[..i])|
  }

  lemma SerializeAt(wide: bool, recs: seq<Rec>, i: nat)
    requires AllFit(wide, recs) && i < |recs|
    ensures Serialize(wide, recs) ==
            Serialize(wide, recs[..i]) + RecBytes(wide, recs[i]) + Serialize(wide, recs[i + 1..])
  {
    assert recs == recs[..i] + recs[i..] && recs[i..] == [recs[i]] + recs[i + 1..];
    SerializeConcat(wide, recs[..i], recs[i..]);
    assert recs[i..][1..] == recs[i + 1..];
  }

  /** Replacing a record by one of the same size replaces its bytes and nothing else. */
  lemma SerializeUpdate(wide: bool, recs: seq<Rec>, i: nat, r: Rec)
    requires AllFit(wide, recs) && i < |recs| && FitsFormat(wide, r) && |r.payload| == |recs[i].payload|
    ensures AllFit(wide, recs[i := r])
    ensures var o := Offset(wide, recs, i);
            && o + |RecBytes(wide, r)| <= |Serialize(wide, recs)|
            && Serialize(wide, recs)[o..o + |RecBytes(wide, r)|] == RecBytes(wide, recs[i])
            && Serialize(wide, recs[i := r]) == Fill(Serialize(wide, recs), o, RecBytes(wide, r))
  {
    SerializeAt(wide, recs, i);
    SerializeAt(wide, recs[i := r], i);
    assert recs[i := r][..i] == recs[..i] && recs[i := r][i + 1..] == recs[i + 1..];
    FillMiddle(Serialize(wide, recs[..i]), RecBytes(wide, recs[i]), RecBytes(wide, r), Serialize(wide, recs[i + 1..]));
  }

  lemma FillMiddle(a: seq<Byte>, x: seq<Byte>, y: seq<Byte>, c: seq<Byte>)
    requires |x| == |y|
    ensures (a + x + c)[|a|..|a| + |y|] == x && Fill(a + x + c, |a|, y) == a + y + c
  {
  }

  lemma SerializeAppend(wide: bool, recs: seq<Rec>, r: Rec)
    requires AllFit(wide, recs) && FitsFormat(wide, r)
    ensures AllFit(wide, recs + [r]) && Serialize(wide, recs + [r]) == Serialize(wide, recs) + RecBytes(wide, r)
  {
    SerializeConcat(wide, recs, [r]);
    assert Serialize(wide, [r]) == RecBytes(wide, r) + Serialize(wide, []);
  }

  // ---------------------------------------------------------------------------------------------
  // The two blocks
  // ---------------------------------------------------------------------------------------------

  /** memcpy into a block. */
  method Poke(b: array<Byte>, at: nat, bytes: seq<Byte>)
    requires at + |bytes| <= b.Length
    modifies b
    ensures b[..] == Fill(old(b[..]), at, bytes)
  {
    forall k | 0 <= k < |bytes| {
      b[at + k] := bytes[k];
    }
  }

  lemma FillPrefix(d: seq<Byte>, at: nat, bytes: seq<Byte>, m: nat)
    requires at + |bytes| <= m <= |d|
    ensures Fill(d, at, bytes)[..m] == Fill(d[..m], at, bytes)
  {
  }

  /** The first `marker` bytes of a block are exactly these records. */
  ghost predicate Good(wide: bool, recs: seq<Rec>, marker: nat, bytes: seq<Byte>) {
    marker <= |bytes| && AllFit(wide, recs) && bytes[..marker] == Serialize(wide, recs)
  }

  /** Writing a header at the end of the records appends the record whose payload already lies there. */
  lemma AppendRecord(wide: bool, recs: seq<Rec>, d0: seq<Byte>, d1: seq<Byte>, at: nat, r: Rec)
    requires Good(wide, recs, at, d0) && FitsFormat(wide, r) && at + HeaderSize(wide) + |r.payload| <= |d0|
    requires d1 == Fill(d0, at, HeaderBytes(wide, HeadOf(wide, r)))
    requires r.payload == d0[at + HeaderSize(wide)..at + HeaderSize(wide) + |r.payload|]
    ensures Good(wide, recs + [r], at + HeaderSize(wide) + |r.payload|, d1)
    ensures d1[at + HeaderSize(wide)..at + HeaderSize(wide) + |r.payload|] == r.payload
  {
    SerializeAppend(wide, recs, r);
    PrependHeader(d0, at, HeaderBytes(wide, HeadOf(wide, r)), r.payload);
  }

  lemma PrependHeader(d0: seq<Byte>, at: nat, h: seq<Byte>, payload: seq<Byte>)
    requires at + |h| + |payload| <= |d0| && d0[at + |h|..at + |h| + |payload|] == payload
    ensures Fill(d0, at, h)[at + |h|..at + |h| + |payload|] == payload
    ensures Fill(d0, at, h)[..at + |h| + |payload|] == d0[..at] + (h + payload)
  {
    var d1, n := Fill(d0, at, h), at + |h| + |payload|;
    assert d1[at + |h|..n] == d0[at + |h|..n];
    assert d1[..n] == d1[..at + |h|] + d1[at + |h|..n];
    assert d1[..at + |h|] == d0[..at] + h;
  }

  /** Writes the header of a new record behind the records of a block. */
  method WriteHeader(wide: bool, b: array<Byte>, at: nat, size: nat, core: nat, ghost recs: seq<Rec>, ghost r: Rec)
    requires FitsFormat(wide, r) && r.core == core && |r.payload| == size && !r.done
    requires Good(wide, recs, at, b[..]) && at + HeaderSize(wide) + size <= b.Length
    requires r.payload == b[at + HeaderSize(wide)..at + HeaderSize(wide) + size]
    modifies b
    ensures Good(wide, recs + [r], at + HeaderSize(wide) + size, b[..])
    ensures r.payload == b[at + HeaderSize(wide)..at + HeaderSize(wide) + size]
  {
    ghost var d0 := b[..];
    var header := HeaderBytes(wide, Head(if wide then core * 0x8000 + size else size, 0));
    assert header == HeaderBytes(wide, HeadOf(wide, r));
    assert d0[at + HeaderSize(wide)..at + HeaderSize(wide) + size] == r.payload;
    Poke(b, at, header);
    AppendRecord(wide, recs, d0, b[..], at, r);
  }

  /** The largest payload a request may ask for; the difference is unsigned. */
  function PayloadLimit(wide: bool, sz: nat): int {
    if !wide then 255 else if sz >= 4 then sz - 4 else sz + U32_LIMIT - 4
  }

  /** A record of this size fits an empty block. */
  predicate FitsBlock(wide: bool, sz: nat, size: nat) {
    HeaderSize(wide) + size <= sz
  }

  predicate FitsField(wide: bool, size: nat) {
    size < if wide then 0x8000 else 256
  }

  predicate BlockSizeOk(wide: bool, sz: nat) {
    if wide then 4 <= sz <= 0x8003 else 257 <= sz
  }

  /**
   After a swap a region is handed out without another look at the space, so the size check is all there is. It
   keeps every region inside its block, and every size inside its header field, exactly for these block sizes.
   */
  lemma GrantsFitIff(wide: bool, sz: nat)
    requires sz < U32_LIMIT
    ensures PayloadLimit(wide, sz) == if wide then (sz + 0x1_0000_0000 - 4) % 0x1_0000_0000 else 255
    ensures (forall size: nat | size <= PayloadLimit(wide, sz) :: FitsBlock(wide, sz, size)) <==> if wide then 4 <= sz else 257 <= sz
    ensures (forall size: nat | size <= PayloadLimit(wide, sz) :: FitsBlock(wide, sz, size) && FitsField(wide, size)) <==> BlockSizeOk(wide, sz)
  {
    var top: nat := PayloadLimit(wide, sz);
    assert FitsBlock(wide, sz, top) <==> if wide then 4 <= sz else 257 <= sz;
  }

  /** At most the first `n` elements. */
  function Take(s: seq<Byte>, n: int): (t: seq<Byte>)
    ensures t <= s
  {
    if n < 0 then [] else if n <= |s| then s[..n] else s
  }

  /** What a swap starts from: the block in use, the ring, and what it will take of the host's data. */
  datatype Snapshot = Snapshot(inBlock: nat, recs: seq<Rec>, marker: nat, queued: seq<Byte>, curSize: nat, rd: nat, incoming: seq<Byte>)

  class Membufs {
    const wide: bool                   // 4-byte headers
    const sz: nat                      // size of both blocks
    const block0: array<Byte>
    const block1: array<Byte>
    const ring: Ring                   // data from the host
    var inBlock: nat                   // number of swaps so far
    var markers: seq<nat>              // filling level of each block
    ghost var recs: seq<seq<Rec>>      // the records in each block since it was last swapped in

    function Current(): nat
      reads this
    {
      inBlock % 2
    }

    function Block(i: nat): array<Byte> {
      if i == 0 then block0 else block1
    }

    /** Every payload that passes the size check fits an empty block and the header. */
    ghost predicate Shape()
      reads this
    {
      && block0.Length == block1.Length == sz < U32_LIMIT && block0 != block1
      && ring.data != block0 && ring.data != block1
      && |markers| == |recs| == 2
      && BlockSizeOk(wide, sz)
    }

    ghost predicate BlockInv(i: nat)
      requires Shape() && i < 2
      reads this, Block(i)
    {
      Good(wide, recs[i], markers[i], Block(i)[..])
    }

    /** The block in use holds its records; the other one belongs to the host, which may write to it. */
    ghost predicate Valid()
      reads this, block0, block1
    {
      Shape() && BlockInv(Current())
    }

    /** The retired block still holds its records. */
    ghost predicate RetiredIntact()
      reads this, block0, block1
    {
      Shape() && BlockInv(1 - Current())
    }

    constructor (wide: bool, block0: array<Byte>, block1: array<Byte>, ring: Ring)
      requires block0.Length == block1.Length < U32_LIMIT && block0 != block1
      requires ring.data != block0 && ring.data != block1
      requires BlockSizeOk(wide, block0.Length)
      ensures Valid() && RetiredIntact()
      ensures this.wide == wide && this.ring == ring && this.block0 == block0 && this.block1 == block1
      ensures inBlock == 0 && markers == [0, 0] && recs == [[], []]
    {
      this.wide, this.sz, this.block0, this.block1, this.ring := wide, block0.Length, block0, block1, ring;
      inBlock, markers, recs := 0, [0, 0], [[], []];
    }

    /** What the host has put at the start of block `i`: a 16-bit length and that many bytes. */
    ghost function HostData(i: nat): seq<Byte>
      requires Shape() && i < 2
      reads this, Block(i)
    {
      if HostFits(i) then Block(i)[2..2 + FromWord(Block(i)[..2])] else []
    }

    ghost predicate HostFits(i: nat)
      requires Shape() && i < 2
      reads this, Block(i)
    {
      2 + FromWord(Block(i)[..2]) <= sz
    }

    /** What the ring will take of the host's data in block `i` when that block is swapped in. */
    ghost function Incoming(i: nat, pending: bool): seq<Byte>
      requires Shape() && ring.Valid() && i < 2
      reads this, Block(i), ring, ring.data
    {
      if pending then Take(HostData(i), ring.RoomLeft()) else []
    }

    ghost function Snap(pending: bool): Snapshot
      requires Shape() && ring.Valid()
      reads this, block0, block1, ring, ring.data
    {
      Snapshot(inBlock, recs[Current()], markers[Current()], ring.Contents(), ring.curSize, ring.rd, Incoming(1 - Current(), pending))
    }

    /**
     The blocks have changed places since `s`: the one in use is empty, the one handed over is complete, and the
     host's data is in the ring as far as it fits.
     */
    ghost predicate Exchanged(s: Snapshot)
      requires Valid() && ring.Valid()
      reads this, block0, block1, ring, ring.data
    {
      recs[Current()] == [] && markers[Current()] == 0 && ExchangedBut(s)
    }

    /** The same apart from the records that are now in the block in use. */
    ghost predicate ExchangedBut(s: Snapshot)
      requires Valid() && ring.Valid()
      reads this, block0, block1, ring, ring.data
    {
      && RetiredIntact() && inBlock == s.inBlock + 1
      && recs[1 - Current()] == s.recs && markers[1 - Current()] == s.marker
      && ring.Contents() == s.queued + s.incoming && ring.curSize == s.curSize && ring.rd == s.rd
    }

    /** The host puts data for the target into the block it owns, over whatever records lie there. */
    method HostWrites(bytes: seq<Byte>)
      requires Valid() && 2 + |bytes| <= sz && |bytes| < 0x1_0000
      modifies Block(1 - Current())
      ensures Valid() && HostFits(1 - Current()) && HostData(1 - Current()) == bytes
    {
      var b := Block(1 - Current());
      WordRoundTrip(true, |bytes|);
      Poke(b, 0, Word(true, |bytes|) + bytes);
      assert b[..2] == b[..][..2] == Word(true, |bytes|);
      assert b[2..2 + |bytes|] == b[..][2..2 + |bytes|] == bytes;
    }

    /**
     At any time, and in particular when it is retired, a block parses into exactly the records allocated in it
     since it was swapped in, in order, each finished or unfinished and with its payload.
     */
    lemma BlockParses(i: nat)
      requires Shape() && i < 2 && BlockInv(i)
      ensures Parse(wide, Block(i)[..markers[i]]) == Some(Items(wide, recs[i]))
    {
      assert Block(i)[..markers[i]] == Block(i)[..][..markers[i]];
      ParseSerialize(wide, recs[i]);
    }

    /** The middle of esp_apptrace_membufs_swap: data of the host goes to the ring as far as it fits. */
    method Receive(pending: bool) returns (total: nat)
      requires Valid() && ring.Valid() && markers[Current()] == 0 && (pending ==> HostFits(Current()))
      modifies Block(Current()), ring, ring.data
      ensures Valid() && ring.Valid()
      ensures ring.Contents() == old(ring.Contents()) + old(Incoming(Current(), pending))
      ensures ring.curSize == old(ring.curSize) && ring.rd == old(ring.rd)
      ensures total == |old(Incoming(Current(), pending))|
    {
      total := 0;
      var b := Block(Current());
      if pending {
        var n := FromWord(b[..2]);
        if n > 0 {
          assert b[2..2 + n] == HostData(Current());
          total := ring.DownBufferWrite(b[2..2 + n]);
          Poke(b, 0, [0, 0]);
        }
      }
    }

    /** The state change of a swap. */
    method Switch()
      requires Valid()
      modifies this`inBlock, this`markers, this`recs
      ensures Valid() && RetiredIntact() && inBlock == old(inBlock) + 1 && Current() == 1 - old(Current())
      ensures recs == old(recs)[Current() := []] && markers == old(markers)[Current() := 0]
    {
      var next := 1 - Current();
      markers := markers[next := 0];
      inBlock := inBlock + 1;
      recs := recs[next := []];
    }

    /**
     esp_apptrace_membufs_swap. `started` is the answer of the hardware, `pending` says whether the host has
     left data; `total` is how much of it the ring has taken.
     */
    method Swap(started: bool, pending: bool) returns (ok: bool, total: nat)
      requires Valid() && ring.Valid() && (pending ==> HostFits(1 - Current()))
      modifies this`inBlock, this`markers, this`recs, Block(1 - Current()), ring, ring.data
      ensures Valid() && ring.Valid() && ok == started
      ensures !ok ==> unchanged(this) && unchanged(block0) && unchanged(block1) && unchanged(ring) && unchanged(ring.data)
      ensures ok ==> Exchanged(old(Snap(pending)))
      ensures total == if ok then |old(Incoming(1 - Current(), pending))| else 0
    {
      if !started {
        return false, 0;
      }
      Switch();
      total := Receive(pending);
      return true, total;
    }

    /** esp_apptrace_membufs_swap_waitus: tries until the hardware agrees or time is up (the end of `starts`). */
    method SwapWait(starts: seq<bool>, pending: bool) returns (ok: bool)
      requires Valid() && ring.Valid() && (pending ==> HostFits(1 - Current()))
      modifies this`inBlock, this`markers, this`recs, Block(1 - Current()), ring, ring.data
      ensures Valid() && ring.Valid() && ok == (true in starts)
      ensures !ok ==> unchanged(this) && unchanged(block0) && unchanged(block1) && unchanged(ring) && unchanged(ring.data)
      ensures ok ==> Exchanged(old(Snap(pending)))
    {
      ok := false;
      for i := 0 to |starts|
        invariant !ok && true !in starts[..i]
        invariant unchanged(this) && unchanged(block0) && unchanged(block1) && unchanged(ring) && unchanged(ring.data)
      {
        assert Snap(pending) == old(Snap(pending));
        var total;
        ok, total := Swap(starts[i], pending);
        if ok {
          return;
        }
      }
    }

    /** Reserves and heads a record in the current block, which has room for it. */
    method Allocate(size: nat, core: nat) returns (ptr: nat)
      requires Valid() && FitsFormatSize(size, core)
      requires markers[Current()] + size + HeaderSize(wide) <= sz
      modifies this`markers, this`recs, Block(Current())
      ensures Valid() && ptr == old(markers)[Current()] + HeaderSize(wide) && markers == old(markers)[Current() := ptr + size]
      ensures recs == old(recs)[Current() := old(recs)[Current()] + [Rec(core, false, Block(Current())[ptr..ptr + size])]]
    {
      var cur := Current();
      var at := markers[cur];
      ptr := at + HeaderSize(wide);
      ghost var r := Rec(core, false, Block(cur)[ptr..ptr + size]);
      WriteHeader(wide, Block(cur), at, size, core, recs[cur], r);
      markers := markers[cur := ptr + size];
      recs := recs[cur := recs[cur] + [r]];
    }

    predicate FitsFormatSize(size: nat, core: nat) {
      if wide then size < 0x8000 && core < 2 else size < 256
    }

    /** esp_apptrace_membufs_usr_data_len_max. */
    function MaxPayload(): int {
      PayloadLimit(wide, sz)
    }

    /** The block in use has no room for another record of this size. */
    predicate Full(size: nat)
      requires |markers| == 2
      reads this
    {
      markers[Current()] + size + HeaderSize(wide) > sz
    }

    /**
     esp_apptrace_membufs_up_buffer_get: a region for `size` bytes of user data, in the current block or,
     when that is too full, in the other one after a swap.
     */
    method UpBufferGet(size: nat, core: nat, starts: seq<bool>, pending: bool) returns (ptr: Option<nat>)
      requires Valid() && ring.Valid() && core < 2 && (pending ==> HostFits(1 - Current()))
      modifies this`inBlock, this`markers, this`recs, block0, block1, ring, ring.data
      ensures Valid() && ring.Valid()
      // refused exactly if too large for any block, or the block is full and no swap succeeds in time
      ensures ptr == None <==> size > MaxPayload() || (old(Full(size)) && true !in starts)
      ensures ptr == None ==>
                unchanged(this) && unchanged(block0) && unchanged(block1) && unchanged(ring) && unchanged(ring.data)
      ensures ptr.Some? ==> ptr.value == HeaderSize(wide) + if old(Full(size)) then 0 else old(markers[Current()])
      ensures ptr.Some? ==> ptr.value + size == markers[Current()] <= sz
      // a new unfinished record behind those of the block in use, and the block the host owns is left alone
      ensures ptr.Some? && !old(Full(size)) ==>
                && recs[Current()] == old(recs[Current()]) + [Rec(core, false, Block(Current())[ptr.value..ptr.value + size])]
                && inBlock == old(inBlock) && recs[1 - Current()] == old(recs[1 - Current()])
                && unchanged(Block(1 - Current())) && unchanged(ring) && unchanged(ring.data)
                && (old(RetiredIntact()) ==> RetiredIntact())
      // or the first record of the other block, the block handed over is complete, and the host's message is in the ring
      ensures ptr.Some? && old(Full(size)) ==>
                && recs[Current()] == [Rec(core, false, Block(Current())[ptr.value..ptr.value + size])]
                && ExchangedBut(old(Snap(pending)))
    {
      if size > MaxPayload() {
        return None;
      }
      if Full(size) {
        ptr := SwapAndAllocate(size, core, starts, pending);
      } else {
        var p := AllocateHere(size, core);
        ptr := Some(p);
      }
    }

    /** The second half when the block in use has room. */
    method AllocateHere(size: nat, core: nat) returns (ptr: nat)
      requires Valid() && core < 2 && size <= MaxPayload() && !Full(size)
      modifies this`markers, this`recs, Block(Current())
      ensures Valid() && (old(RetiredIntact()) ==> RetiredIntact())
      ensures recs[1 - Current()] == old(recs[1 - Current()]) && ptr + size == markers[Current()] <= sz
      ensures recs[Current()] == old(recs[Current()]) + [Rec(core, false, Block(Current())[ptr..ptr + size])]
      ensures ptr == HeaderSize(wide) + old(markers[Current()])
    {
      ptr := Allocate(size, core);
    }

    /** The second half when the block in use is too full. */
    method SwapAndAllocate(size: nat, core: nat, starts: seq<bool>, pending: bool) returns (ptr: Option<nat>)
      requires Valid() && ring.Valid() && (pending ==> HostFits(1 - Current())) && core < 2 && size <= MaxPayload()
      modifies this`inBlock, this`markers, this`recs, block0, block1, ring, ring.data
      ensures Valid() && ring.Valid() && (ptr.Some? <==> true in starts)
      ensures ptr == None ==>
                unchanged(this) && unchanged(block0) && unchanged(block1) && unchanged(ring) && unchanged(ring.data)
      ensures ptr.Some? ==>
                && ExchangedBut(old(Snap(pending))) && ptr.value == HeaderSize(wide) && ptr.value + size == markers[Current()] <= sz
                && recs[Current()] == [Rec(core, false, Block(Current())[ptr.value..ptr.value + size])]
    {
      var ok := SwapWait(starts, pending);
      if !ok {
        return None;
      }
      var p := AllocateFirst(size, core, old(Snap(pending)));
      return Some(p);
    }

    method AllocateFirst(size: nat, core: nat, ghost s: Snapshot) returns (ptr: nat)
      requires Valid() && ring.Valid() && core < 2 && size <= MaxPayload() && Exchanged(s)
      modifies this`markers, this`recs, Block(Current())
      ensures Valid() && ring.Valid() && ExchangedBut(s)
      ensures ptr == HeaderSize(wide) && ptr + size == markers[Current()] <= sz
      ensures recs[Current()] == [Rec(core, false, Block(Current())[ptr..ptr + size])]
    {
      ptr := Allocate(size, core);
    }

    /**
     One turn of the loop of esp_apptrace_membufs_down_buffer_get: hands out up to `limit` bytes that the host has
     sent, or, if there are none, fetches what the host has left by forcing a swap.
     */
    method DownBufferPoll(limit: nat, starts: seq<bool>, pending: bool) returns (ptr: Option<nat>, size: nat)
      requires Valid() && ring.Valid() && (pending ==> HostFits(1 - Current()))
      modifies this`inBlock, this`markers, this`recs, Block(1 - Current()), ring, ring.data
      ensures Valid() && ring.Valid()
      ensures ptr.Some? <==> !old(ring.IsEmpty())
      ensures ptr.Some? ==>
                && unchanged(this) && unchanged(block0) && unchanged(block1) && unchanged(ring.data)
                && size <= limit && ptr.value + size <= ring.data.Length
                && old(ring.Contents()) == ring.data[ptr.value..ptr.value + size] + ring.Contents()
                && (limit > 0 ==> size > 0)
      // at most `limit` bytes, and fewer only if that is all or the ring ends there
      ensures ptr.Some? ==>
                ptr.value == old(ring.rd) && (size == limit || ring.Contents() == [] || ptr.value + size == old(ring.curSize))
      ensures old(ring.Whole()) ==> ring.Whole() && ring.rd == Advance(old(ring.rd), size, ring.data.Length)
      ensures old(ring.IsEmpty()) && pending && true in starts ==>
                Exchanged(old(Snap(pending)))
      ensures old(ring.IsEmpty()) && !(pending && true in starts) ==>
                unchanged(this) && unchanged(block0) && unchanged(block1) && unchanged(ring) && unchanged(ring.data)
    {
      if !ring.IsEmpty() {
        ptr, size := TakeQueued(limit);
        return;
      }
      if pending {
        var ok := SwapWait(starts, pending);
      }
      return None, 0;
    }

    /** Hands out the oldest bytes, as far as they lie in one piece. */
    method TakeQueued(limit: nat) returns (ptr: Option<nat>, size: nat)
      requires ring.Valid() && !ring.IsEmpty()
      modifies ring
      ensures ring.Valid() && (old(ring.Whole()) ==> ring.Whole() && ring.rd == Advance(old(ring.rd), size, ring.data.Length))
      ensures ptr.Some? && size <= limit && ptr.value + size <= ring.data.Length && (limit > 0 ==> size > 0)
      ensures size == limit || ring.Contents() == [] || ptr.value + size == old(ring.curSize)
      ensures ptr.value == old(ring.rd)
      ensures old(ring.Contents()) == ring.data[ptr.value..ptr.value + size] + ring.Contents()
    {
      SizesAreSafe(ring.Fields(), 0);
      size := Min(limit, ReadSize(ring.Fields()));
      ptr := ring.TakeOut(size);
    }

    /** Pointer to the payload of record `k` of block `i`. */
    ghost function Payload(i: nat, k: nat): nat
      requires Shape() && i < 2 && BlockInv(i) && k < |recs[i]|
      reads this, block0, block1
    {
      Offset(wide, recs[i], k) + HeaderSize(wide)
    }

    /** The region handed out last ends at the marker, so the pointer returned is the payload of the last record. */
    lemma LastPayload(i: nat)
      requires Shape() && i < 2 && BlockInv(i) && recs[i] != []
      ensures Payload(i, |recs[i]| - 1) + |recs[i][|recs[i]| - 1].payload| == markers[i]
    {
      var k := |recs[i]| - 1;
      SerializeAt(wide, recs[i], k);
      assert |Serialize(wide, recs[i])| == markers[i];
    }

    /**
     esp_apptrace_membufs_up_buffer_put: marks the record as completely written. The record may lie in the block
     in use or in the one just handed over, as long as the host has not written there.
     */
    method UpBufferPut(i: nat, ptr: nat, ghost k: nat)
      requires Valid() && i < 2 && BlockInv(i) && k < |recs[i]| && ptr == Payload(i, k)
      modifies this`recs, Block(i)
      ensures Valid() && BlockInv(i) && recs == old(recs)[i := old(recs)[i][k := old(recs)[i][k].(done := true)]]
    {
      ghost var r := recs[i][k];
      RecordAt(wide, recs[i], k, markers[i], Block(i)[..]);
      Complete(wide, Block(i), ptr, recs[i], k, markers[i]);
      recs := recs[i := recs[i][k := r.(done := true)]];
    }

    /** The user of a region writes its payload. */
    method UserWrites(i: nat, ptr: nat, bytes: seq<Byte>, ghost k: nat)
      requires Valid() && i < 2 && BlockInv(i) && k < |recs[i]| && ptr == Payload(i, k) && |bytes| == |recs[i][k].payload|
      modifies this`recs, Block(i)
      ensures Valid() && BlockInv(i) && recs == old(recs)[i := old(recs)[i][k := old(recs)[i][k].(payload := bytes)]]
    {
      ghost var r := recs[i][k];
      WritePayload(wide, Block(i), ptr, bytes, recs[i], k, markers[i]);
      recs := recs[i := recs[i][k := r.(payload := bytes)]];
    }

    /** esp_apptrace_membufs_flush_nolock: swaps while more than `minSz` bytes wait, at most once. */
    method Flush(minSz: nat, starts: seq<bool>, pending: bool) returns (ok: bool)
      requires Valid() && ring.Valid() && (pending ==> HostFits(1 - Current()))
      modifies this`inBlock, this`markers, this`recs, Block(1 - Current()), ring, ring.data
      ensures Valid() && ring.Valid()
      ensures ok <==> old(markers[Current()]) <= minSz || true in starts
      ensures ok ==> markers[Current()] <= minSz
      ensures if old(markers[Current()]) > minSz && ok then Exchanged(old(Snap(pending)))
              else unchanged(this) && unchanged(block0) && unchanged(block1) && unchanged(ring) && unchanged(ring.data)
    {
      if markers[Current()] < minSz {
        return true;
      }
      ok := true;
      ghost var swapped := false;
      while markers[Current()] > minSz
        invariant Valid() && ring.Valid() && ok && |markers| == 2
        invariant !swapped ==>
                    unchanged(this) && unchanged(block0) && unchanged(block1) && unchanged(ring) && unchanged(ring.data)
        invariant swapped ==>
                    Exchanged(old(Snap(pending))) && true in starts && old(markers[Current()]) > minSz
        decreases markers[Current()]
      {
        ok := SwapWait(starts, pending);
        if !ok {
          return;
        }
        swapped := true;
      }
    }
  }

  /** Changing a record without changing its size, or adding one, leaves all records where they are. */
  lemma OffsetStays(wide: bool, recs: seq<Rec>, k: nat, r: Rec, i: nat)
    requires AllFit(wide, recs) && k < |recs| && FitsFormat(wide, r) && |r.payload| == |recs[k].payload| && i <= |recs|
    ensures AllFit(wide, recs[k := r]) && Offset(wide, recs[k := r], i) == Offset(wide, recs, i)
  {
    if k < i {
      assert recs[k := r][..i] == recs[..i][k := r];
      SerializeUpdate(wide, recs[..i], k, r);
    } else {
      assert recs[k := r][..i] == recs[..i];
    }
  }

  lemma OffsetAppend(wide: bool, recs: seq<Rec>, r: Rec, i: nat)
    requires AllFit(wide, recs) && FitsFormat(wide, r) && i <= |recs|
    ensures Offset(wide, recs + [r], i) == Offset(wide, recs, i)
    ensures Offset(wide, recs, |recs|) == |Serialize(wide, recs)|
  {
    assert (recs + [r])[..i] == recs[..i];
    assert recs[..|recs|] == recs;
  }

  /** Overwriting the middle part of a stretch a + m + c of the buffer. */
  lemma EditMiddle(d: seq<Byte>, o: nat, a: seq<Byte>, m: seq<Byte>, z: seq<Byte>, c: seq<Byte>)
    requires o + |a| + |m| + |c| <= |d| && d[o..o + |a| + |m| + |c|] == a + m + c && |z| == |m|
    ensures d[o..o + |a|] == a
    ensures Fill(d, o + |a|, z) == Fill(d, o, a + z + c)
  {
    var n := |a| + |m| + |c|;
    var l, r := Fill(d, o + |a|, z), Fill(d, o, a + z + c);
    forall i | 0 <= i < |a| ensures d[o + i] == a[i] {
      assert d[o..o + n][i] == (a + m + c)[i];
    }
    forall i | 0 <= i < |c| ensures d[o + |a| + |m| + i] == c[i] {
      assert d[o..o + n][|a| + |m| + i] == (a + m + c)[|a| + |m| + i];
    }
    assert |l| == |r|;
    assert forall i | 0 <= i < |d| :: l[i] == r[i];
  }

  lemma InnerSlice(d: seq<Byte>, marker: nat, o: nat, n: nat, x: seq<Byte>)
    requires o + n <= marker <= |d| && d[..marker][o..o + n] == x
    ensures d[o..o + n] == x
  {
  }

  lemma RecordAt(wide: bool, recs: seq<Rec>, k: nat, marker: nat, d: seq<Byte>)
    requires Good(wide, recs, marker, d) && k < |recs|
    ensures var o, x := Offset(wide, recs, k), RecBytes(wide, recs[k]);
            o + |x| <= marker && d[o..o + |x|] == x
  {
    SerializeUpdate(wide, recs, k, recs[k]);
    var o, x := Offset(wide, recs, k), RecBytes(wide, recs[k]);
    InnerSlice(d, marker, o, |x|, x);
  }

  lemma UpdateKeeps(wide: bool, recs: seq<Rec>, k: nat, marker: nat, d: seq<Byte>, r: Rec)
    requires Good(wide, recs, marker, d) && k < |recs| && FitsFormat(wide, r) && |r.payload| == |recs[k].payload|
    ensures Offset(wide, recs, k) + |RecBytes(wide, r)| <= |d|
    ensures Good(wide, recs[k := r], marker, Fill(d, Offset(wide, recs, k), RecBytes(wide, r)))
  {
    SerializeUpdate(wide, recs, k, r);
    FillPrefix(d, Offset(wide, recs, k), RecBytes(wide, r), marker);
  }

  /** Finishing record `k` is writing its size field over its second header word. */
  lemma FinishRecord(wide: bool, recs: seq<Rec>, k: nat, marker: nat, d: seq<Byte>)
    requires Good(wide, recs, marker, d) && k < |recs|
    ensures var o, w := Offset(wide, recs, k), WordSize(wide);
            && o + 2 * w <= |d|
            && Good(wide, recs[k := recs[k].(done := true)], marker, Fill(d, o + w, d[o..o + w]))
  {
    var r := recs[k].(done := true);
    RecordAt(wide, recs, k, marker, d);
    UpdateKeeps(wide, recs, k, marker, d, r);
    RepeatWord(wide, d, Offset(wide, recs, k), recs[k]);
  }

  /** Copying the first header word over the second turns the bytes of a record into those of a finished one. */
  lemma RepeatWord(wide: bool, d: seq<Byte>, o: nat, r: Rec)
    requires FitsFormat(wide, r) && o + |RecBytes(wide, r)| <= |d| && d[o..o + |RecBytes(wide, r)|] == RecBytes(wide, r)
    ensures var w := WordSize(wide);
            Fill(d, o + w, d[o..o + w]) == Fill(d, o, RecBytes(wide, r.(done := true)))
  {
    var f, m := Word(wide, SizeField(wide, r)), Word(wide, HeadOf(wide, r).wr);
    EditMiddle(d, o, f, m, f, r.payload);
  }

  lemma PayloadRecord(wide: bool, recs: seq<Rec>, k: nat, marker: nat, d: seq<Byte>, bytes: seq<Byte>)
    requires Good(wide, recs, marker, d) && k < |recs| && |bytes| == |recs[k].payload|
    ensures Offset(wide, recs, k) + HeaderSize(wide) + |bytes| <= |d|
    ensures Good(wide, recs[k := recs[k].(payload := bytes)], marker, Fill(d, Offset(wide, recs, k) + HeaderSize(wide), bytes))
  {
    var r := recs[k].(payload := bytes);
    RecordAt(wide, recs, k, marker, d);
    var h := HeaderBytes(wide, HeadOf(wide, r));
    assert h + recs[k].payload + [] == RecBytes(wide, recs[k]) && h + bytes + [] == RecBytes(wide, r);
    EditMiddle(d, Offset(wide, recs, k), h, recs[k].payload, bytes, []);
    UpdateKeeps(wide, recs, k, marker, d, r);
  }

  /** Copies the allocated size of record `k` into its written size. */
  method Complete(wide: bool, b: array<Byte>, ptr: nat, ghost recs: seq<Rec>, ghost k: nat, ghost marker: nat)
    requires Good(wide, recs, marker, b[..]) && k < |recs| && ptr == Offset(wide, recs, k) + HeaderSize(wide)
    requires ptr <= b.Length
    modifies b
    ensures Good(wide, recs[k := recs[k].(done := true)], marker, b[..])
  {
    var w := WordSize(wide);
    var field := b[ptr - HeaderSize(wide)..ptr - w];
    FinishRecord(wide, recs, k, marker, b[..]);
    assert field == b[..][Offset(wide, recs, k)..Offset(wide, recs, k) + w];
    Poke(b, ptr - w, field);
  }

  method WritePayload(wide: bool, b: array<Byte>, ptr: nat, bytes: seq<Byte>,
                      ghost recs: seq<Rec>, ghost k: nat, ghost marker: nat)
    requires Good(wide, recs, marker, b[..]) && k < |recs| && ptr == Offset(wide, recs, k) + HeaderSize(wide)
    requires |bytes| == |recs[k].payload|
    modifies b
    ensures Good(wide, recs[k := recs[k].(payload := bytes)], marker, b[..])
  {
    PayloadRecord(wide, recs, k, marker, b[..], bytes);
    Poke(b, ptr, bytes);
  }
}
