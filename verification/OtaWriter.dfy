/**
 The streaming writer of an over-the-air update: 16-byte buffering when flash encryption is on, and
 erasing sectors just ahead of the data. The target partition is an array of bytes with an erased bit
 per byte; writing a byte that is not erased can only clear bits, as NOR flash does.
 */
module OtaWriter {
  import opened Common
  import opened Sectors

  datatype Err = OK | InvalidArg | InvalidSize | InvalidState | ValidateFailed

  /** Type of the final partition, which decides the magic number of the image. */
  datatype Kind = App | Bootloader | PartitionTable | Other

  /** ESP_IMAGE_HEADER_MAGIC, and ESP_PARTITION_MAGIC (0x50AA) as its two little-endian bytes. */
  const IMAGE_MAGIC: bv8 := 0xE9
  const TABLE_MAGIC_0: bv8 := 0xAA
  const TABLE_MAGIC_1: bv8 := 0x50

  /** The magic number check; of a one-byte input the source reads the byte behind it, `beyond`, as well. */
  predicate MagicOk(kind: Kind, input: seq<bv8>, beyond: bv8)
    requires input != []
  {
    match kind
    case App => input[0] == IMAGE_MAGIC
    case Bootloader => input[0] == IMAGE_MAGIC
    case PartitionTable => input[0] == TABLE_MAGIC_0 && (if |input| > 1 then input[1] else beyond) == TABLE_MAGIC_1
    case Other => true
  }

  /** An app or bootloader begins with 0xE9, a partition table with the little-endian word 0x50AA. */
  lemma MagicNumbers(input: seq<bv8>, beyond: bv8)
    requires input != []
    ensures MagicOk(App, input, beyond) == MagicOk(Bootloader, input, beyond) == (input[0] as nat == 0xE9)
    ensures |input| > 1 ==> (MagicOk(PartitionTable, input, beyond) <==> input[0] as nat + 256 * input[1] as nat == 0x50AA)
    ensures MagicOk(Other, input, beyond)
  {
  }

  /** End of the sector that holds byte `end - 1`. */
  function SectorEnd(end: nat, e: nat): nat
    requires e > 0 && end > 0
  {
    Start(end - 1, e) + e
  }

  /** What is on flash once `total` bytes have been accepted: whole 16-byte blocks with encryption on. */
  function Flushed(encrypted: bool, total: nat): nat {
    if encrypted then Start(total, 16) else total
  }

  /**
   Erasing up to the end of the sector of byte `w + n - 1` is enough, although the formula ignores the
   `p` buffered bytes, and it leaves at most one erased sector ahead.
   */
  lemma EraseCovers(enc: bool, w: nat, p: nat, n: nat, e: nat)
    requires n > 0 && e > 0
    requires if enc then Aligned(e, 16) && Aligned(w, 16) && p < 16 else p == 0
    ensures var w1, end := Flushed(enc, w + p + n), SectorEnd(w + n, e);
            && w <= w1 <= end && AheadByOne(w1, end, e)
            && (Aligned(w1, e) ==> (end > w1 <==> w + n > w1))
  {
    var w1, s := Flushed(enc, w + p + n), Start(w + n - 1, e);
    StartAligned(w + n - 1, e);
    NextAligned(s, e);
    if enc {
      AlignedToDivisor(s, e, 16);
      NextAligned(s, e);
      AlignedToDivisor(s + e, e, 16);
      StartAligned(w + p + n, 16);
      BetweenBlocks(w1, s, s + e, w + n, p);
      BetweenBlocks(w1, w, w1, w + n, p);
    }
    if s < w1 < s + e {
      StartIs(w1 - 1, s, e);
      StartIs(w1, s, e);
    }
  }

  /** Rounding down to blocks cannot leave an interval that ends on block boundaries. */
  lemma BetweenBlocks(w1: nat, a: nat, b: nat, wn: nat, p: nat)
    requires Aligned(w1, 16) && Aligned(a, 16) && Aligned(b, 16) && p < 16
    requires a < wn && (wn <= b || b == w1) && w1 <= wn + p < w1 + 16
    ensures a <= w1 <= b
  {
  }

  /** `end` is where the erased sectors end when the next byte goes to `w`: at most one whole sector ahead. */
  predicate AheadByOne(w: nat, end: nat, e: nat)
    requires e > 0
  {
    if Aligned(w, e) then end == w || end == w + e else end == SectorEnd(w, e)
  }

  function Repeat(b: bv8, n: nat): seq<bv8> {
    seq(n, _ => b)
  }

  /** Whatever lies between `lo` and `hi` at or beyond `end` was erased initially. */
  predicate Covered(init: seq<bool>, end: nat, lo: nat, hi: nat) {
    forall i | lo <= i < hi && end <= i < |init| :: init[i]
  }

  class OtaSession {
    const size: nat
    const eraseSize: nat
    const encrypted: bool
    const needErase: bool
    const kind: Kind

    const data: array<bv8>
    const erased: array<bool>
    const partialData: array<bv8>

    var wroteSize: nat
    var partialBytes: nat

    ghost const initErased: seq<bool>  // which bytes were erased before the session
    ghost var erasedEnd: nat           // the session has erased the bytes below this offset
    ghost var pad: bv8                 // content of the unused end of partialData
    ghost var dirty: nat               // bytes written while not erased

    ghost predicate Arrays()
      reads this
    {
      && data.Length == erased.Length == size == |initErased|
      && partialData.Length == 16 && partialData != data
      && (data as object) != erased && (partialData as object) != erased
    }

    ghost predicate Shape()
      reads this
    {
      Arrays() && eraseSize > 0 && Aligned(size, eraseSize) && (encrypted ==> Aligned(eraseSize, 16))
    }

    /** Bytes from the write offset on are erased as far as the session went, and as found beyond that. */
    ghost predicate ErasedInv()
      reads this, erased
    {
      && Arrays() && wroteSize <= size && erasedEnd <= size
      && (forall i | wroteSize <= i < erasedEnd :: erased[i])
      && (forall i | wroteSize <= i < size && erasedEnd <= i :: erased[i] == initErased[i])
    }

    ghost predicate BufferInv()
      reads this`partialBytes, this`pad, partialData
    {
      && partialData.Length == 16
      && partialBytes < 16 && (!encrypted ==> partialBytes == 0)
      && (forall k | partialBytes <= k < 16 :: partialData[k] == pad) && (pad == 0 || pad == 0xFF)
    }

    /** Holds throughout a call. */
    ghost predicate Core()
      reads this, erased, partialData
    {
      Shape() && ErasedInv() && BufferInv() && (encrypted ==> Aligned(wroteSize, 16)) && Aligned(erasedEnd, eraseSize)
    }

    /** Holds between calls. */
    ghost predicate Valid()
      reads this, erased, partialData
    {
      && Core()
      && (needErase ==> AheadByOne(wroteSize, erasedEnd, eraseSize))
    }

    /** esp_ota_begin; `imageSize` is None for OTA_WITH_SEQUENTIAL_WRITES, 0 for an unknown size. */
    constructor Begin(data: array<bv8>, erased: array<bool>, eraseSize: nat, encrypted: bool, kind: Kind,
                      imageSize: Option<nat>)
      requires eraseSize > 0 && data.Length == erased.Length && Aligned(data.Length, eraseSize)
      requires (data as object) != erased && (encrypted ==> Aligned(eraseSize, 16))
      modifies data, erased
      ensures this.data == data && this.erased == erased && fresh(partialData)
      ensures this.encrypted == encrypted && this.eraseSize == eraseSize && this.kind == kind
      ensures needErase == imageSize.None? && initErased == old(erased[..])
      ensures Valid() && wroteSize == 0 && partialBytes == 0 && pad == 0 && dirty == 0 && Stored() == []
      // sequential: nothing erased yet; otherwise the announced size, rounded up, if it fits
      ensures needErase ==> erasedEnd == 0 && data[..] == old(data[..]) && erased[..] == old(erased[..])
      ensures !needErase ==>
                var want := if imageSize.value == 0 then data.Length else SectorEnd(imageSize.value, eraseSize);
                erasedEnd == if want <= data.Length then want else 0
    {
      this.size, this.eraseSize, this.encrypted, this.kind := data.Length, eraseSize, encrypted, kind;
      this.needErase := imageSize.None?;
      this.data, this.erased := data, erased;
      this.partialData := new bv8[16](_ => 0);
      wroteSize, partialBytes, erasedEnd, pad, dirty := 0, 0, 0, 0, 0;
      initErased := erased[..];
      new;
      if imageSize.Some? {
        var len := if imageSize.value == 0 then data.Length else SectorEnd(imageSize.value, eraseSize);
        if imageSize.value > 0 {
          StartAligned(imageSize.value - 1, eraseSize);
          NextAligned(Start(imageSize.value - 1, eraseSize), eraseSize);
        }
        var r := EraseRange(0, len);
        if r == OK {
          erasedEnd := len;
        }
      }
    }

    /** The bytes from `lo` to `hi` are erased: by the session, or they were so before. */
    ghost predicate Covers(lo: nat, hi: nat)
      reads this`erasedEnd
    {
      Covered(initErased, erasedEnd, lo, hi)
    }

    /** Everything the session has accepted: the written part of the partition and the buffered tail. */
    ghost function Stored(): seq<bv8>
      reads this, data, partialData
      requires Arrays() && wroteSize <= size && partialBytes <= 16
    {
      data[..wroteSize] + partialData[..partialBytes]
    }

    /** esp_partition_erase_range. */
    method EraseRange(offset: nat, len: nat) returns (r: Err)
      requires Shape() && Aligned(offset, eraseSize) && Aligned(len, eraseSize)
      modifies data, erased
      ensures r == if offset + len <= size then OK else InvalidSize
      ensures r == OK ==> forall i | offset <= i < offset + len :: erased[i] && data[i] == 0xFF
      ensures forall i | 0 <= i < size && !(r == OK && offset <= i < offset + len) ::
                erased[i] == old(erased[i]) && data[i] == old(data[i])
    {
      if offset + len > size {
        return InvalidSize;
      }
      forall i | offset <= i < offset + len {
        data[i] := 0xFF;
      }
      forall i | offset <= i < offset + len {
        erased[i] := true;
      }
      return OK;
    }

    /** esp_partition_write. */
    method WriteRange(offset: nat, input: seq<bv8>) returns (r: Err)
      requires Arrays()
      modifies data, erased, this`dirty
      ensures r == if offset + |input| <= size then OK else InvalidSize
      ensures r == OK ==> forall i | offset <= i < offset + |input| ::
                  !erased[i] && data[i] == if old(erased[i]) then input[i - offset] else old(data[i]) & input[i - offset]
      ensures forall i | 0 <= i < size && !(r == OK && offset <= i < offset + |input|) ::
                erased[i] == old(erased[i]) && data[i] == old(data[i])
      ensures dirty >= old(dirty)
      ensures dirty == old(dirty) <==>
              r != OK || forall i | offset <= i < offset + |input| :: old(erased[i])
    {
      if offset + |input| > size {
        return InvalidSize;
      }
      if !forall i | offset <= i < offset + |input| :: erased[i] {
        dirty := dirty + 1;
      }
      Program(offset, input);
      MarkWritten(offset, |input|);
      return OK;
    }

    method Program(offset: nat, input: seq<bv8>)
      requires Arrays() && offset + |input| <= size
      modifies data
      ensures forall i | offset <= i < offset + |input| ::
                data[i] == if erased[i] then input[i - offset] else old(data[i]) & input[i - offset]
      ensures forall i | 0 <= i < size && !(offset <= i < offset + |input|) :: data[i] == old(data[i])
    {
      forall i | offset <= i < offset + |input| {
        data[i] := if erased[i] then input[i - offset] else data[i] & input[i - offset];
      }
    }

    method MarkWritten(offset: nat, len: nat)
      requires Arrays() && offset + len <= size
      modifies erased
      ensures forall i | offset <= i < offset + len :: !erased[i]
      ensures forall i | 0 <= i < size && !(offset <= i < offset + len) :: erased[i] == old(erased[i])
    {
      forall i | offset <= i < offset + len {
        erased[i] := false;
      }
    }

    /** Erases the sectors the next `n` bytes may reach. */
    method EraseAhead(n: nat) returns (r: Err)
      requires Valid() && needErase && n > 0
      modifies data, erased, this`erasedEnd
      ensures Core()
      ensures r == if SectorEnd(wroteSize + n, eraseSize) <= size then OK else InvalidSize
      ensures erasedEnd == if r == OK then SectorEnd(wroteSize + n, eraseSize) else old(erasedEnd)
      ensures forall i | 0 <= i < wroteSize :: data[i] == old(data[i]) && erased[i] == old(erased[i])
    {
      var from, len := EraseBounds(wroteSize, n, eraseSize, erasedEnd);
      r := EraseUpTo(from, len);
    }

    method EraseUpTo(from: nat, len: nat) returns (r: Err)
      requires Core() && Aligned(from, eraseSize) && Aligned(len, eraseSize)
      requires wroteSize <= from <= erasedEnd <= from + len
      modifies data, erased, this`erasedEnd
      ensures Core()
      ensures r == if from + len <= size then OK else InvalidSize
      ensures erasedEnd == if r == OK then from + len else old(erasedEnd)
      ensures forall i | 0 <= i < wroteSize :: data[i] == old(data[i]) && erased[i] == old(erased[i])
    {
      r := EraseRange(from, len);
      if r == OK {
        SumAligned(from, len, eraseSize);
        erasedEnd := from + len;
      }
    }

    /** Nothing below offset `w` has changed. */
    twostate predicate Keeps(w: nat)
      reads data, erased
    {
      forall i | 0 <= i < w && i < data.Length && i < erased.Length :: data[i] == old(data[i]) && erased[i] == old(erased[i])
    }

    /** Writes `block` at the write offset and moves the offset. */
    method WriteThrough(block: seq<bv8>) returns (r: Err)
      requires ErasedInv()
      modifies data, erased, this`wroteSize, this`dirty
      ensures r == if old(wroteSize) + |block| <= size then OK else InvalidSize
      ensures wroteSize == if r == OK then old(wroteSize) + |block| else old(wroteSize)
      ensures ErasedInv() && Keeps(old(wroteSize))
      ensures r == OK && Covers(old(wroteSize), wroteSize) ==> data[..wroteSize] == old(data[..wroteSize]) + block
      ensures dirty >= old(dirty) && (r == OK ==> (dirty == old(dirty) <==> Covers(old(wroteSize), wroteSize)))
    {
      var w := wroteSize;
      assert w + |block| <= size ==> (Covers(w, w + |block|) <==> forall i | w <= i < w + |block| :: erased[i]);
      r := WriteRange(w, block);
      if r == OK {
        wroteSize := w + |block|;
        if Covers(w, wroteSize) {
          assert forall k | 0 <= k < |block| :: data[w + k] == block[k];
          assert data[..wroteSize] == old(data[..w]) + block;
        }
      }
    }

    /** Fills the 16-byte buffer and writes it out once it is full. */
    method FillPartial(input: seq<bv8>) returns (r: Err, used: nat)
      requires Core() && encrypted && partialBytes > 0 && input != []
      modifies data, erased, partialData, this`wroteSize, this`partialBytes, this`pad, this`dirty
      ensures used == Min(16 - old(partialBytes), |input|)
      ensures r == if old(partialBytes) + used == 16 && old(wroteSize) + 16 > size then InvalidSize else OK
      ensures r == OK ==> Core() && wroteSize + partialBytes == old(wroteSize) + old(partialBytes) + used
      ensures r == OK ==>
                if old(partialBytes) + used < 16 then used == |input| && wroteSize == old(wroteSize) && partialBytes > 0
                else partialBytes == 0 && wroteSize == old(wroteSize) + 16
      ensures Keeps(old(wroteSize))
      ensures r == OK && Covers(old(wroteSize), wroteSize) ==> Stored() == old(Stored()) + input[..used]
      ensures dirty >= old(dirty) && (r == OK ==> (dirty == old(dirty) <==> Covers(old(wroteSize), wroteSize)))
      ensures r == OK ==> pad == if old(partialBytes) + |input| >= 16 then 0xFF else old(pad)
    {
      used := FillBuffer(input);
      r := OK;
      if partialBytes == 16 {
        r := FlushBlock();
      } else {
        assert data[..wroteSize] == old(data[..wroteSize]);
      }
    }

    /** Writes the full buffer out and clears it. */
    method FlushBlock() returns (r: Err)
      requires ErasedInv() && partialBytes == 16 && Aligned(wroteSize, 16)
      modifies data, erased, partialData, this`wroteSize, this`partialBytes, this`pad, this`dirty
      ensures r == if old(wroteSize) + 16 > size then InvalidSize else OK
      ensures ErasedInv() && Keeps(old(wroteSize))
      ensures r == OK ==> BufferInv() && wroteSize == old(wroteSize) + 16 && partialBytes == 0 && pad == 0xFF && Aligned(wroteSize, 16)
      ensures r == OK && Covers(old(wroteSize), wroteSize) ==> Stored() == old(Stored())
      ensures dirty >= old(dirty) && (r == OK ==> (dirty == old(dirty) <==> Covers(old(wroteSize), wroteSize)))
    {
      r := WriteThrough(partialData[..]);
      if r == OK {
        ClearPartial();
        assert old(Stored()) == old(data[..wroteSize]) + old(partialData[..]);
      }
    }

    method FillBuffer(input: seq<bv8>) returns (used: nat)
      requires BufferInv()
      modifies partialData, this`partialBytes
      ensures used == Min(16 - old(partialBytes), |input|) && partialBytes == old(partialBytes) + used
      ensures partialBytes < 16 ==> forall k | partialBytes <= k < 16 :: partialData[k] == pad
      ensures partialData[..partialBytes] == old(partialData[..partialBytes]) + input[..used]
    {
      used := Min(16 - partialBytes, |input|);
      var p := partialBytes;
      forall k | 0 <= k < used {
        partialData[p + k] := input[k];
      }
      partialBytes := p + used;
    }

    method ClearPartial()
      requires Arrays()
      modifies partialData, this`partialBytes, this`pad
      ensures partialBytes == 0 && pad == 0xFF && forall k | 0 <= k < 16 :: partialData[k] == pad
    {
      partialBytes := 0;
      forall k | 0 <= k < 16 {
        partialData[k] := 0xFF;
      }
      pad := 0xFF;
    }

    method KeepTail(tail: seq<bv8>)
      requires Core() && partialBytes == 0 && |tail| < 16 && (!encrypted ==> tail == [])
      modifies partialData, this`partialBytes
      ensures Core() && partialBytes == |tail| && partialData[..partialBytes] == tail
    {
      forall k | 0 <= k < |tail| {
        partialData[k] := tail[k];
      }
      partialBytes := |tail|;
    }

    /** Writes whole blocks through and keeps the rest for later. */
    method StoreRest(input: seq<bv8>) returns (r: Err)
      requires Core() && partialBytes == 0
      modifies data, erased, partialData, this`wroteSize, this`partialBytes, this`dirty
      ensures var w1 := old(wroteSize) + Flushed(encrypted, |input|);
              r == (if w1 <= size then OK else InvalidSize) && (r == OK ==> wroteSize == w1)
      ensures r == OK ==> Core() && wroteSize + partialBytes == old(wroteSize) + |input|
      ensures Keeps(old(wroteSize))
      ensures r == OK && Covers(old(wroteSize), wroteSize) ==> Stored() == old(Stored()) + input
      ensures dirty >= old(dirty) && (r == OK ==> (dirty == old(dirty) <==> Covers(old(wroteSize), wroteSize)))
    {
      var whole := |input| - (if encrypted then |input| % 16 else 0);
      WholeBlocks(encrypted, wroteSize, |input|, whole);
      r := StoreBlocks(input, whole);
    }

    method StoreBlocks(input: seq<bv8>, whole: nat) returns (r: Err)
      requires Core() && partialBytes == 0 && whole <= |input| < whole + 16
      requires if encrypted then Aligned(wroteSize + whole, 16) else whole == |input|
      modifies data, erased, partialData, this`wroteSize, this`partialBytes, this`dirty
      ensures var w1 := old(wroteSize) + whole;
              r == (if w1 <= size then OK else InvalidSize) && (r == OK ==> wroteSize == w1)
      ensures r == OK ==> Core() && wroteSize + partialBytes == old(wroteSize) + |input|
      ensures Keeps(old(wroteSize))
      ensures r == OK && Covers(old(wroteSize), wroteSize) ==> Stored() == old(Stored()) + input
      ensures dirty >= old(dirty) && (r == OK ==> (dirty == old(dirty) <==> Covers(old(wroteSize), wroteSize)))
    {
      assert input == input[..whole] + input[whole..];
      KeepTail(input[whole..]);
      r := WriteThrough(input[..whole]);
    }

    /** When a write fails, and how. */
    function Verdict(input: seq<bv8>, beyond: bv8): Err
      requires eraseSize > 0
      reads this
    {
      if input == [] then OK
      else if needErase && SectorEnd(wroteSize + |input|, eraseSize) > size then InvalidSize
      else if wroteSize == 0 && partialBytes == 0 && !MagicOk(kind, input, beyond) then ValidateFailed
      else if Flushed(encrypted, wroteSize + partialBytes + |input|) > size then InvalidSize
      else OK
    }

    /** esp_ota_write. */
    method Write(input: seq<bv8>, beyond: bv8) returns (r: Err)
      requires Valid() && wroteSize + |input| <= U32_MAX
      modifies data, erased, partialData, this`wroteSize, this`partialBytes, this`pad, this`dirty, this`erasedEnd
      ensures r == old(Verdict(input, beyond))
      ensures r == OK ==> Valid()
      ensures r == OK ==> wroteSize + partialBytes == old(wroteSize) + old(partialBytes) + |input|
      ensures r == OK ==> wroteSize == Flushed(encrypted, wroteSize + partialBytes)
      // nothing already written is touched
      ensures Keeps(old(wroteSize))
      // the input is appended to what the session has stored, exactly if all of it goes to erased bytes
      ensures r == OK && Covers(old(wroteSize), wroteSize) ==> Stored() == old(Stored()) + input
      ensures dirty >= old(dirty) && (r == OK ==> (dirty == old(dirty) <==> Covers(old(wroteSize), wroteSize)))
      ensures r == OK && needErase ==> wroteSize <= erasedEnd
      // a refused magic number leaves the session as it was
      ensures r == ValidateFailed ==>
                wroteSize == old(wroteSize) && partialBytes == old(partialBytes) && Stored() == old(Stored())
      // how far the partition is erased afterwards
      ensures r == OK && input != [] && needErase ==> erasedEnd == SectorEnd(old(wroteSize) + |input|, eraseSize)
      ensures !needErase || input == [] ==> erasedEnd == old(erasedEnd)
      // the unused end of the buffer is 0 until it has been written out for the first time, and 0xFF from then on
      ensures r == OK ==> pad == if old(partialBytes) > 0 && old(partialBytes) + |input| >= 16 then 0xFF else old(pad)
    {
      if |input| == 0 {
        BlockKept(encrypted, wroteSize, partialBytes);
        assert Stored() + input == Stored();
        return OK;
      }
      ghost var w1 := Flushed(encrypted, wroteSize + partialBytes + |input|);
      r := Prepare(input, beyond);
      if r == OK {
        r := Append(input);
        assert r == OK ==> wroteSize == w1;
      }
    }

    /** The part of esp_ota_write before the data moves: erase ahead, then check the magic number. */
    method Prepare(input: seq<bv8>, beyond: bv8) returns (r: Err)
      requires Valid() && input != []
      modifies data, erased, this`erasedEnd
      ensures r ==
              if needErase && SectorEnd(wroteSize + |input|, eraseSize) > size then InvalidSize
              else if wroteSize == 0 && partialBytes == 0 && !MagicOk(kind, input, beyond) then ValidateFailed
              else OK
      ensures Core() && Keeps(wroteSize) && Stored() == old(Stored())
      ensures r == OK && needErase ==> erasedEnd == SectorEnd(wroteSize + |input|, eraseSize)
      ensures !needErase ==> erasedEnd == old(erasedEnd)
      ensures r == OK && needErase ==>
                var w1 := Flushed(encrypted, wroteSize + partialBytes + |input|);
                w1 <= erasedEnd && AheadByOne(w1, erasedEnd, eraseSize)
    {
      if needErase {
        WriteStaysAhead(encrypted, wroteSize, partialBytes, |input|, eraseSize,
                        Flushed(encrypted, wroteSize + partialBytes + |input|), SectorEnd(wroteSize + |input|, eraseSize));
        r := EraseAhead(|input|);
        assert data[..wroteSize] == old(data[..wroteSize]);
        if r != OK {
          return;
        }
      }
      r := if wroteSize == 0 && partialBytes == 0 && !MagicOk(kind, input, beyond) then ValidateFailed else OK;
    }

    /** The part of esp_ota_write that moves the data. */
    method Append(input: seq<bv8>) returns (r: Err)
      requires Core() && input != []
      modifies data, erased, partialData, this`wroteSize, this`partialBytes, this`pad, this`dirty
      ensures var w1 := Flushed(encrypted, old(wroteSize) + old(partialBytes) + |input|);
              r == (if w1 <= size then OK else InvalidSize) && (r == OK ==> wroteSize == w1)
      ensures r == OK ==> Core() && wroteSize + partialBytes == old(wroteSize) + old(partialBytes) + |input|
      ensures Keeps(old(wroteSize))
      ensures r == OK && Covers(old(wroteSize), wroteSize) ==> Stored() == old(Stored()) + input
      ensures dirty >= old(dirty) && (r == OK ==> (dirty == old(dirty) <==> Covers(old(wroteSize), wroteSize)))
      ensures r == OK ==> pad == if old(partialBytes) > 0 && old(partialBytes) + |input| >= 16 then 0xFF else old(pad)
    {
      FlushedSplit(encrypted, wroteSize, partialBytes, |input|);
      if encrypted && partialBytes != 0 {
        r := FillAndStore(input);
      } else {
        r := StoreRest(input);
      }
    }

    method FillAndStore(input: seq<bv8>) returns (r: Err)
      requires Core() && input != [] && encrypted && partialBytes > 0
      modifies data, erased, partialData, this`wroteSize, this`partialBytes, this`pad, this`dirty
      ensures var used := Min(16 - old(partialBytes), |input|);
              var w1 := if old(partialBytes) + used < 16 then old(wroteSize) else old(wroteSize) + 16 + Flushed(encrypted, |input| - used);
              r == (if w1 <= size then OK else InvalidSize) && (r == OK ==> wroteSize == w1)
      ensures r == OK ==> Core() && wroteSize + partialBytes == old(wroteSize) + old(partialBytes) + |input|
      ensures Keeps(old(wroteSize))
      ensures r == OK && Covers(old(wroteSize), wroteSize) ==> Stored() == old(Stored()) + input
      ensures dirty >= old(dirty) && (r == OK ==> (dirty == old(dirty) <==> Covers(old(wroteSize), wroteSize)))
      ensures r == OK ==> pad == if old(partialBytes) + |input| >= 16 then 0xFF else old(pad)
    {
      ghost var w0, stored0, dirty0 := wroteSize, Stored(), dirty;
      var used;
      r, used := FillPartial(input);
      assert input[..|input|] == input;
      if r == OK && partialBytes == 0 {
        r := StoreAfter(input, used, w0, stored0, dirty0);
      }
    }

    /** The part behind the first `used` bytes, which have gone from offset `w0` to the present write offset. */
    method StoreAfter(input: seq<bv8>, used: nat, ghost w0: nat, ghost stored0: seq<bv8>, ghost dirty0: nat) returns (r: Err)
      requires Core() && partialBytes == 0 && used <= |input| && w0 <= wroteSize && dirty0 <= dirty
      requires dirty == dirty0 <==> Covers(w0, wroteSize)
      requires Covers(w0, wroteSize) ==> Stored() == stored0 + input[..used]
      modifies data, erased, partialData, this`wroteSize, this`partialBytes, this`dirty
      ensures var w1 := old(wroteSize) + Flushed(encrypted, |input| - used);
              r == (if w1 <= size then OK else InvalidSize) && (r == OK ==> wroteSize == w1)
      ensures r == OK ==> Core() && wroteSize + partialBytes == old(wroteSize) + |input| - used
      ensures Keeps(old(wroteSize))
      ensures r == OK && Covers(w0, wroteSize) ==> Stored() == stored0 + input
      ensures dirty >= dirty0 && (r == OK ==> (dirty == dirty0 <==> Covers(w0, wroteSize)))
    {
      ghost var mid := wroteSize;
      r := StoreRest(input[used..]);
      if r == OK {
        CoveredSplit(initErased, erasedEnd, w0, mid, wroteSize);
        Joined(stored0, input, used);
      }
    }

    /**
     esp_ota_end: writes out the buffered tail as a whole block, then verifies the image. `verified` is
     the verdict of the image check.
     */
    method End(verified: bool) returns (r: Err)
      requires Valid()
      modifies data, erased, this`wroteSize, this`partialBytes, this`dirty
      ensures r ==
              if old(wroteSize) == 0 then InvalidArg
              else if old(partialBytes) > 0 && old(wroteSize) + 16 > size then InvalidState
              else if verified then OK else ValidateFailed
      ensures Keeps(old(wroteSize))
      ensures r == OK ==> partialBytes == 0
      ensures r == OK ==> wroteSize == old(wroteSize) + if old(partialBytes) > 0 then 16 else 0
      // the image is what was stored, padded to whole blocks, exactly if the last block was erased
      ensures r == OK && old(PaddingErased()) ==>
                data[..wroteSize] == old(Stored()) + Repeat(pad, wroteSize - |old(Stored())|) && (pad == 0 || pad == 0xFF)
      ensures dirty >= old(dirty) && (r == OK ==> (dirty == old(dirty) <==> old(PaddingErased())))
    {
      if wroteSize == 0 {
        return InvalidArg;
      }
      assert partialData[..] == partialData[..partialBytes] + partialData[partialBytes..];
      assert partialData[partialBytes..] == Repeat(pad, 16 - partialBytes);
      if partialBytes > 0 {
        var w := wroteSize;
        r := WriteRange(w, partialData[..]);
        if r != OK {
          return InvalidState;
        }
        wroteSize := w + 16;
        partialBytes := 0;
        if old(PaddingErased()) {
          assert data[..wroteSize] == old(data[..w]) + old(partialData[..]);
        }
      } else {
        assert old(Stored()) == data[..wroteSize] && Repeat(pad, 0) == [];
      }
      r := if verified then OK else ValidateFailed;
    }

    /** The block esp_ota_end still has to write lies on erased bytes. */
    ghost predicate PaddingErased()
      reads this, erased
    {
      partialBytes > 0 ==> forall i | wroteSize <= i < wroteSize + 16 && i < erased.Length :: erased[i]
    }
  }

  lemma CoveredSplit(init: seq<bool>, end: nat, lo: nat, mid: nat, hi: nat)
    requires lo <= mid <= hi
    ensures Covered(init, end, lo, hi) <==> Covered(init, end, lo, mid) && Covered(init, end, mid, hi)
  {
  }

  lemma Joined(done: seq<bv8>, input: seq<bv8>, used: nat)
    requires used <= |input|
    ensures done + input[..used] + input[used..] == done + input
  {
  }

  lemma BlockKept(enc: bool, w: nat, p: nat)
    requires if enc then Aligned(w, 16) && p < 16 else p == 0
    ensures Flushed(enc, w + p) == w
  {
  }

  lemma WriteStaysAhead(enc: bool, w: nat, p: nat, n: nat, e: nat, w1: nat, end: nat)
    requires n > 0 && e > 0
    requires if enc then Aligned(e, 16) && Aligned(w, 16) && p < 16 else p == 0
    requires w1 == Flushed(enc, w + p + n) && end == SectorEnd(w + n, e)
    ensures w <= w1 <= end && AheadByOne(w1, end, e)
  {
    EraseCovers(enc, w, p, n, e);
  }

  lemma WholeBlocks(enc: bool, w: nat, n: nat, whole: nat)
    requires whole == n - (if enc then n % 16 else 0) && (enc ==> Aligned(w, 16))
    ensures whole == Flushed(enc, n) && n - whole < 16 && (enc ==> Aligned(w + whole, 16)) && (!enc ==> whole == n)
  {
    if enc {
      assert w + whole == 16 * (w / 16 + n / 16);
    }
  }

  /** Rounding the total down, seen from the two places that write. */
  lemma FlushedSplit(enc: bool, w: nat, p: nat, n: nat)
    requires if enc then Aligned(w, 16) && p < 16 else p == 0
    ensures var used := if enc && p != 0 then Min(16 - p, n) else 0;
            if enc && p != 0 && p + used < 16 then Flushed(enc, w + p + n) == w && used == n
            else Flushed(enc, w + p + n) == w + p + used + Flushed(enc, n - used)
  {
    if enc {
      var used := if p != 0 then Min(16 - p, n) else 0;
      if p != 0 && p + used < 16 {
        StartIs(w + p + n, w, 16);
      } else {
        StartAfter(w + p + used, n - used);
      }
    }
  }

  lemma StartAfter(a: nat, m: nat)
    requires Aligned(a, 16)
    ensures Start(a + m, 16) == a + Start(m, 16)
  {
    StartAligned(m, 16);
    SumAligned(a, Start(m, 16), 16);
    StartIs(a + m, a + Start(m, 16), 16);
  }

  /** Start and length of the erase call before `n` bytes go to offset `w`; length 0 when there is none. */
  method EraseBounds(w: nat, n: nat, e: nat, ghost end0: nat) returns (from: nat, len: nat)
    requires e > 0 && n > 0 && AheadByOne(w, end0, e)
    ensures Aligned(from, e) && Aligned(len, e)
    ensures w <= from <= end0 <= from + len == SectorEnd(w + n, e)
  {
    var crosses, next, rest, whole := SectorBounds(w, n, e);
    from, len := EraseSpan(w, e, crosses, next, rest, whole, end0, SectorEnd(w + n, e));
  }

  method SectorBounds(w: nat, n: nat, e: nat) returns (crosses: bool, next: nat, rest: nat, whole: nat)
    requires e > 0 && n > 0
    ensures Aligned(whole, e) && Aligned(next, e) && Aligned(rest, e) && (!crosses ==> rest == 0)
    ensures Aligned(w, e) ==> w + e <= SectorEnd(w + n, e) == w + whole
    ensures !Aligned(w, e) ==> w < next == SectorEnd(w, e) <= SectorEnd(w + n, e) == next + rest
  {
    var firstSector := w / e;
    var lastSector := (w + n - 1) / e;
    FirstBeforeLast(w, n, e, firstSector, lastSector);
    crosses := firstSector != lastSector;
    next, rest := (firstSector + 1) * e, (lastSector - firstSector) * e;
    whole := (lastSector - firstSector + 1) * e;
    SectorOrder(w, n, e, firstSector, lastSector, next, rest, whole);
  }

  lemma FirstBeforeLast(w: nat, n: nat, e: nat, first: nat, last: nat)
    requires e > 0 && n > 0 && first == w / e && last == (w + n - 1) / e
    ensures first <= last && first * e == Start(w, e) && last * e == Start(w + n - 1, e)
    ensures (last - first) * e >= 0 && (last - first + 1) * e >= 0
  {
    Quotient(w, e);
    Quotient(w + n - 1, e);
    StartMonotone(w, w + n - 1, e);
    if last < first { LessMul(last, first, e); }
    NonNeg(last - first, e);
    NonNeg(last - first + 1, e);
  }

  method EraseSpan(w: nat, e: nat, crosses: bool, next: nat, rest: nat, whole: nat, ghost end0: nat, ghost end: nat)
    returns (from: nat, len: nat)
    requires e > 0 && Aligned(whole, e) && Aligned(next, e) && Aligned(rest, e) && (!crosses ==> rest == 0)
    requires Aligned(w, e) ==> (end0 == w || end0 == w + e) && w + e <= end == w + whole
    requires !Aligned(w, e) ==> w < end0 == next <= end == next + rest
    ensures Aligned(from, e) && Aligned(len, e) && w <= from <= end0 <= from + len == end
  {
    if Aligned(w, e) {
      from, len := w, whole;
    } else if crosses {
      from, len := next, rest;
    } else {
      from, len := next, 0;
    }
  }

  lemma SectorOrder(w: nat, n: nat, e: nat, first: nat, last: nat, next: nat, rest: nat, whole: nat)
    requires e > 0 && n > 0 && first <= last && first * e == Start(w, e) && last * e == Start(w + n - 1, e)
    requires next == (first + 1) * e && rest == (last - first) * e && whole == (last - first + 1) * e
    ensures Aligned(whole, e) && Aligned(next, e) && Aligned(rest, e) && (first == last ==> rest == 0)
    ensures Aligned(w, e) ==> w + e <= SectorEnd(w + n, e) == w + whole
    ensures !Aligned(w, e) ==> w < next == SectorEnd(w, e) <= SectorEnd(w + n, e) == next + rest
  {
    Distribute(last, first, e);
    Multiple(last - first + 1, e);
    Multiple(first + 1, e);
    Multiple(last - first, e);
    NonNeg(last - first, e);
    StartAligned(w, e);
    SectorEnds(w, n, e, first * e, last * e, next, rest, whole);
  }

  lemma SectorEnds(w: nat, n: nat, e: nat, from: nat, to: nat, next: nat, rest: nat, whole: nat)
    requires e > 0 && n > 0 && from == Start(w, e) && to == Start(w + n - 1, e) && Aligned(from, e)
    requires next == from + e && to == from + rest && whole == rest + e
    ensures Aligned(w, e) ==> w + e <= SectorEnd(w + n, e) == w + whole
    ensures !Aligned(w, e) ==> w < next == SectorEnd(w, e) <= SectorEnd(w + n, e) == next + rest
  {
    if !Aligned(w, e) {
      StartIs(w - 1, from, e);
    }
  }

  lemma Distribute(a: nat, b: nat, e: nat)
    requires b <= a
    ensures (a - b) * e == a * e - b * e && (a - b + 1) * e == a * e - b * e + e && (b + 1) * e == b * e + e
  {
  }

  // ---------------------------------------------------------------------------------------------
  // Whole sessions
  // ---------------------------------------------------------------------------------------------

  function Flatten(chunks: seq<seq<bv8>>): seq<bv8> {
    if chunks == [] then [] else Flatten(chunks[..|chunks| - 1]) + chunks[|chunks| - 1]
  }

  /** The first byte or two, wherever the chunks end, are the magic number of the partition's type. */
  predicate StartsOk(kind: Kind, chunks: seq<seq<bv8>>, beyond: bv8) {
    chunks != [] ==>
      var n := |chunks| - 1;
      && StartsOk(kind, chunks[..n], beyond)
      && (Flatten(chunks[..n]) == [] && chunks[n] != [] ==> MagicOk(kind, chunks[n], beyond))
  }

  /** Bytes delivered before the last non-empty chunk, and the size of that chunk. */
  function LastChunk(chunks: seq<seq<bv8>>): (int, int) {
    if chunks == [] then (0, 0)
    else
      var n := |chunks| - 1;
      if chunks[n] == [] then LastChunk(chunks[..n]) else (|Flatten(chunks[..n])|, |chunks[n]|)
  }

  /**
   The padding block falls on a sector the session has never erased: `n` bytes delivered after `t0` end
   inside the first block of a sector that the erase formula, which ignores the buffered bytes, did not reach.
   */
  predicate Exposed(e: nat, t0: int, n: int)
    requires e > 0
  {
    && 0 <= t0 && 0 < n
    && !Aligned(t0 + n, 16) && Aligned(Start(t0 + n, 16), e) && Start(t0, 16) + n <= Start(t0 + n, 16)
  }

  /** The session's bookkeeping after `t0` and then `n` bytes, as Exposed sees it. */
  lemma ExposedBy(e: nat, t0: nat, n: nat, w: nat, end: nat)
    requires e > 0 && n > 0 && Aligned(e, 16)
    requires w == Start(t0 + n, 16) && end == SectorEnd(Start(t0, 16) + n, e)
    ensures !Aligned(t0 + n, 16) && Aligned(w, e) ==> (end == w <==> Exposed(e, t0, n))
    ensures Aligned(t0 + n, 16) || !Aligned(w, e) ==> !Exposed(e, t0, n)
    ensures AheadByOne(w, end, e)
  {
    StartAligned(t0, 16);
    EraseCovers(true, Start(t0, 16), t0 % 16, n, e);
  }

  lemma SectorLeavesRoom(w: nat, end: nat, e: nat)
    requires e > 0 && Aligned(e, 16) && Aligned(w, 16) && AheadByOne(w, end, e)
    ensures end == w || w + 16 <= end
    ensures end == w ==> Aligned(w, e)
  {
    if Aligned(w, e) {
      SameAlignedStep(e);
    } else {
      var s := Start(w - 1, e);
      StartAligned(w - 1, e);
      NextAligned(s, e);
      AlignedToDivisor(s + e, e, 16);
      NextBlock(w, s + e);
    }
  }

  lemma SameAlignedStep(e: nat)
    requires e > 0 && Aligned(e, 16)
    ensures e >= 16
  {
  }

  lemma NextBlock(a: nat, b: nat)
    requires Aligned(a, 16) && Aligned(b, 16) && a <= b
    ensures a == b || a + 16 <= b
  {
  }

  /** A session that has not taken anything yet. */
  ghost predicate Opened(ota: OtaSession)
    reads ota, ota.erased, ota.partialData
  {
    ota.Valid() && ota.wroteSize == ota.partialBytes == ota.dirty == 0 && (ota.needErase ==> ota.erasedEnd == 0)
  }

  /**
   A whole update, however erasing was arranged and whatever the partition held: the bytes delivered are the bytes
   stored, whichever way they were cut into chunks, exactly if all of them fell on erased flash. With sequential
   erase they always do.
   */
  method Update(ota: OtaSession, chunks: seq<seq<bv8>>, beyond: bv8) returns (r: Err)
    requires Opened(ota) && |Flatten(chunks)| <= U32_MAX
    modifies ota, ota.data, ota.erased, ota.partialData
    ensures r == OK ==>
              && ota.Valid() && ota.wroteSize + ota.partialBytes == |Flatten(chunks)|
              && ota.wroteSize == Flushed(ota.encrypted, |Flatten(chunks)|)
    ensures r == OK ==> (ota.dirty == 0 <==> ota.Covers(0, ota.wroteSize))
    ensures r == OK && ota.dirty == 0 ==> ota.Stored() == Flatten(chunks)
    ensures r == OK && ota.needErase ==> ota.dirty == 0
    ensures !ota.needErase ==> ota.erasedEnd == old(ota.erasedEnd)
    // the block esp_ota_end has to write is erased exactly if ...
    ensures r == OK ==> (ota.PaddingErased() <==> PaddingCovered(ota, LastChunk(chunks).0, LastChunk(chunks).1))
    ensures r == OK && ota.encrypted && ota.partialBytes == 0 ==>
              !Exposed(ota.eraseSize, LastChunk(chunks).0, LastChunk(chunks).1)
    // what fits the partition is taken exactly if it starts with the magic number
    ensures r == OK ==> StartsOk(ota.kind, chunks, beyond)
    ensures StartsOk(ota.kind, chunks, beyond) && |Flatten(chunks)| <= ota.size ==> r == OK
  {
    ghost var t0, n;
    assert ota.Stored() == [];
    r, t0, n := WriteChunks(ota, chunks, beyond);
    if r == OK {
      PaddingVerdict(ota, t0, n);
    }
  }

  /**
   ... there is none, or with sequential erase the last chunk did not leave it Exposed, or with bulk erase the erased
   part reaches that far, or it was erased before.
   */
  ghost predicate PaddingCovered(ota: OtaSession, t0: int, n: int)
    requires ota.eraseSize > 0
    reads ota
  {
    || ota.partialBytes == 0 || (ota.needErase && !Exposed(ota.eraseSize, t0, n))
    || forall i | ota.wroteSize <= i < ota.wroteSize + 16 && i < |ota.initErased| ::
         ota.initErased[i] || (!ota.needErase && i < ota.erasedEnd)
  }

  /** If the erased part was announced large enough, a bulk-erase session never meets unerased flash. */
  lemma BulkIsClean(ota: OtaSession, total: nat)
    requires ota.Valid() && !ota.needErase && ota.wroteSize + ota.partialBytes == total <= ota.erasedEnd
    ensures ota.Covers(0, ota.wroteSize) && ota.PaddingErased()
  {
    if ota.partialBytes > 0 {
      AlignedToDivisor(ota.erasedEnd, ota.eraseSize, 16);
      NextBlock(ota.wroteSize, ota.erasedEnd);
    }
  }

  /**
   The whole update with esp_ota_end: if no byte fell on unerased flash, the partition starts with the delivered
   bytes followed by the padding of the last block, whichever way the image was cut.
   */
  method Install(ota: OtaSession, chunks: seq<seq<bv8>>, beyond: bv8, verified: bool) returns (r: Err)
    requires Opened(ota) && |Flatten(chunks)| <= U32_MAX
    modifies ota, ota.data, ota.erased, ota.partialData
    ensures r == OK ==>
              && |Flatten(chunks)| <= ota.wroteSize <= ota.size && ota.wroteSize < |Flatten(chunks)| + 16
              && (!ota.encrypted ==> ota.wroteSize == |Flatten(chunks)|)
    ensures r == OK && ota.dirty == 0 ==>
              ota.data[..ota.wroteSize] == Flatten(chunks) + Repeat(ota.pad, ota.wroteSize - |Flatten(chunks)|)
    // and that is so exactly if, with sequential erase, the last block was not Exposed or was erased before
    ensures r == OK && ota.needErase ==>
              (ota.dirty == 0 <==>
               || !(ota.encrypted && Exposed(ota.eraseSize, LastChunk(chunks).0, LastChunk(chunks).1))
               || forall i | Flushed(true, |Flatten(chunks)|) <= i < ota.wroteSize :: ota.initErased[i])
    // and with bulk erase, if everything lies in the erased part or was erased before
    ensures r == OK && !ota.needErase ==> (ota.dirty == 0 <==> ota.Covers(0, ota.wroteSize))
    ensures r == OK && !ota.needErase && |Flatten(chunks)| <= old(ota.erasedEnd) ==> ota.dirty == 0
    // it succeeds exactly for a verified image that fits, starts with the magic number, and fills a block
    ensures r == OK <==>
            && StartsOk(ota.kind, chunks, beyond) && |Flatten(chunks)| <= ota.size
            && Flushed(ota.encrypted, |Flatten(chunks)|) > 0 && verified
  {
    r := Update(ota, chunks, beyond);
    if r == OK {
      ghost var t0, n := LastChunk(chunks).0, LastChunk(chunks).1;
      if !ota.needErase && |Flatten(chunks)| <= ota.erasedEnd {
        BulkIsClean(ota, |Flatten(chunks)|);
      }
      r := Finish(ota, Flatten(chunks), t0, n, verified);
    }
  }

  /** The call of esp_ota_end after an update. */
  method Finish(ota: OtaSession, ghost total: seq<bv8>, ghost t0: int, ghost n: int, verified: bool) returns (r: Err)
    requires ota.Valid() && ota.wroteSize + ota.partialBytes == |total| && ota.wroteSize == Flushed(ota.encrypted, |total|)
    requires (ota.dirty == 0 <==> ota.Covers(0, ota.wroteSize)) && (ota.dirty == 0 ==> ota.Stored() == total)
    requires (ota.needErase ==> ota.dirty == 0) && (ota.PaddingErased() <==> PaddingCovered(ota, t0, n))
    requires ota.partialBytes == 0 && ota.encrypted ==> !Exposed(ota.eraseSize, t0, n)
    modifies ota, ota.data, ota.erased
    ensures r == OK ==> |total| <= ota.wroteSize <= ota.size && ota.wroteSize < |total| + 16
    ensures r == OK ==> (!ota.encrypted ==> ota.wroteSize == |total|) && ota.erasedEnd == old(ota.erasedEnd)
    ensures r == OK ==> (ota.dirty == 0 <==> old(ota.dirty == 0 && ota.PaddingErased()))
    ensures r == OK && ota.dirty == 0 ==> ota.data[..ota.wroteSize] == total + Repeat(ota.pad, ota.wroteSize - |total|)
    ensures r == OK && ota.needErase ==>
              (ota.dirty == 0 <==>
               || !(ota.encrypted && Exposed(ota.eraseSize, t0, n))
               || forall i | Flushed(true, |total|) <= i < ota.wroteSize :: ota.initErased[i])
    ensures r == OK && !ota.needErase ==> (ota.dirty == 0 <==> ota.Covers(0, ota.wroteSize))
    ensures r == OK <==> |total| <= ota.size && Flushed(ota.encrypted, |total|) > 0 && verified
  {
    TailFits(ota.encrypted, ota.wroteSize, ota.partialBytes, ota.eraseSize, ota.size);
    r := ota.End(verified);
  }

  /** The last block fits exactly if the bytes do. */
  lemma TailFits(enc: bool, w: nat, p: nat, e: nat, size: nat)
    requires e > 0 && Aligned(size, e) && w <= size
    requires if enc then Aligned(e, 16) && Aligned(w, 16) && p < 16 else p == 0
    ensures w + p <= size <==> p == 0 || w + 16 <= size
  {
    if enc {
      AlignedToDivisor(size, e, 16);
      NextBlock(w, size);
    }
  }

  method WriteChunks(ota: OtaSession, chunks: seq<seq<bv8>>, beyond: bv8) returns (r: Err, ghost t0: nat, ghost n: nat)
    requires Took(ota, []) && Tracks(ota, 0, 0) && |Flatten(chunks)| <= U32_MAX
    modifies ota, ota.data, ota.erased, ota.partialData
    ensures r == OK ==> TookAll(ota, chunks, t0, n)
    ensures !ota.needErase ==> ota.erasedEnd == old(ota.erasedEnd)
    ensures r == OK ==> StartsOk(ota.kind, chunks, beyond)
    ensures StartsOk(ota.kind, chunks, beyond) && |Flatten(chunks)| <= ota.size ==> r == OK
    decreases |chunks|
  {
    if chunks == [] {
      assert Flatten(chunks) == [] && ota.wroteSize == ota.partialBytes == 0;
      return OK, 0, 0;
    }
    r, t0, n := WriteChunks(ota, chunks[..|chunks| - 1], beyond);
    if r == OK {
      r, t0, n := WriteLast(ota, chunks, beyond, t0, n);
    }
  }

  method WriteLast(ota: OtaSession, chunks: seq<seq<bv8>>, beyond: bv8, ghost t0: nat, ghost n: nat)
    returns (r: Err, ghost t1: nat, ghost n1: nat)
    requires chunks != [] && TookAll(ota, chunks[..|chunks| - 1], t0, n) && |Flatten(chunks)| <= U32_MAX
    modifies ota, ota.data, ota.erased, ota.partialData
    ensures r == OK ==> TookAll(ota, chunks, t1, n1)
    ensures !ota.needErase ==> ota.erasedEnd == old(ota.erasedEnd)
    ensures var done, last := Flatten(chunks[..|chunks| - 1]), chunks[|chunks| - 1];
            && (r == OK ==> done != [] || last == [] || MagicOk(ota.kind, last, beyond))
            && ((done != [] || last == [] || MagicOk(ota.kind, last, beyond)) && |Flatten(chunks)| <= ota.size ==> r == OK)
  {
    ghost var done := Flatten(chunks[..|chunks| - 1]);
    var last := chunks[|chunks| - 1];
    assert Flatten(chunks) == done + last && |done + last| == |done| + |last|;
    assert LastChunk(chunks) == if last == [] then (t0, n) else (|done|, |last|);
    r, t1, n1 := WriteChunk(ota, last, beyond, done, t0, n);
  }

  /** The session has taken the chunks, and the last that was not empty came after `t0` bytes and had `n`. */
  ghost predicate TookAll(ota: OtaSession, chunks: seq<seq<bv8>>, t0: nat, n: nat)
    reads ota, ota.data, ota.erased, ota.partialData
  {
    Took(ota, Flatten(chunks)) && Tracks(ota, t0, n) && |Flatten(chunks)| == t0 + n && LastChunk(chunks) == (t0, n)
  }

  /** The session has stored `done`, if all of it fell on erased bytes, and knows whether it did. */
  ghost predicate Took(ota: OtaSession, done: seq<bv8>)
    reads ota, ota.data, ota.erased, ota.partialData
  {
    && ota.Valid() && (ota.dirty == 0 <==> ota.Covers(0, ota.wroteSize)) && (ota.needErase ==> ota.wroteSize <= ota.erasedEnd)
    && (ota.dirty == 0 ==> ota.Stored() == done)
    && ota.wroteSize + ota.partialBytes == |done| && ota.wroteSize == Flushed(ota.encrypted, |done|)
  }

  /** The session has taken `t0` bytes and then, in its last non-empty chunk, `n` more. */
  ghost predicate Tracks(ota: OtaSession, t0: nat, n: nat)
    requires ota.eraseSize > 0
    reads ota
  {
    Track(ota.encrypted, ota.needErase, ota.eraseSize, ota.erasedEnd, t0, n)
  }

  predicate Track(enc: bool, ahead: bool, e: nat, end: nat, t0: nat, n: nat)
    requires e > 0
  {
    (n == 0 ==> t0 == 0) && (n > 0 && ahead ==> end == SectorEnd(Flushed(enc, t0) + n, e))
  }

  lemma TrackStep(enc: bool, ahead: bool, e: nat, w: nat, end: nat, t0: nat, n: nat, len: nat, end1: nat)
    requires e > 0 && Track(enc, ahead, e, end, t0, n) && w == Flushed(enc, t0 + n)
    requires if len > 0 && ahead then end1 == SectorEnd(w + len, e) else len > 0 || end1 == end
    ensures if len == 0 then Track(enc, ahead, e, end1, t0, n) else Track(enc, ahead, e, end1, t0 + n, len)
  {
  }

  method WriteChunk(ota: OtaSession, chunk: seq<bv8>, beyond: bv8, ghost done: seq<bv8>, ghost t0: nat, ghost n: nat)
    returns (r: Err, ghost t1: nat, ghost n1: nat)
    requires Took(ota, done) && Tracks(ota, t0, n) && |done| == t0 + n && t0 + n + |chunk| <= U32_MAX
    modifies ota, ota.data, ota.erased, ota.partialData
    ensures r == OK ==> Took(ota, done + chunk) && Tracks(ota, t1, n1)
    ensures t1 == (if chunk == [] then t0 else t0 + n) && n1 == if chunk == [] then n else |chunk|
    ensures !ota.needErase ==> ota.erasedEnd == old(ota.erasedEnd)
    ensures r == OK ==> done != [] || chunk == [] || MagicOk(ota.kind, chunk, beyond)
    ensures (done != [] || chunk == [] || MagicOk(ota.kind, chunk, beyond)) && |done| + |chunk| <= ota.size ==> r == OK
  {
    t1, n1 := if chunk == [] then t0 else t0 + n, if chunk == [] then n else |chunk|;
    ghost var w, end := ota.wroteSize, ota.erasedEnd;
    VerdictOfFitting(ota, chunk, beyond, done);
    r := TakeChunk(ota, chunk, beyond, done);
    if r == OK {
      TrackStep(ota.encrypted, ota.needErase, ota.eraseSize, w, end, t0, n, |chunk|, ota.erasedEnd);
    }
  }

  method TakeChunk(ota: OtaSession, chunk: seq<bv8>, beyond: bv8, ghost done: seq<bv8>) returns (r: Err)
    requires Took(ota, done) && |done| + |chunk| <= U32_MAX
    modifies ota, ota.data, ota.erased, ota.partialData
    ensures r == OK ==> Took(ota, done + chunk)
    ensures r == OK && chunk != [] && ota.needErase ==> ota.erasedEnd == SectorEnd(old(ota.wroteSize) + |chunk|, ota.eraseSize)
    ensures !ota.needErase || chunk == [] ==> ota.erasedEnd == old(ota.erasedEnd)
    ensures r == old(ota.Verdict(chunk, beyond))
  {
    ghost var w, p, end, d := ota.wroteSize, ota.partialBytes, ota.erasedEnd, ota.dirty;
    r := ota.Write(chunk, beyond);
    if r == OK {
      FlushedGrows(ota.encrypted, w, p, |chunk|);
      assert ota.wroteSize + ota.partialBytes == |done + chunk|;
      CoveredGrows(ota.initErased, ota.needErase, end, w, d, ota.erasedEnd, ota.wroteSize, ota.dirty);
    }
  }

  lemma VerdictOfFitting(ota: OtaSession, chunk: seq<bv8>, beyond: bv8, done: seq<bv8>)
    requires Took(ota, done)
    ensures ota.Verdict(chunk, beyond) == OK ==> done != [] || chunk == [] || MagicOk(ota.kind, chunk, beyond)
    ensures (done != [] || chunk == [] || MagicOk(ota.kind, chunk, beyond)) && |done| + |chunk| <= ota.size ==>
              ota.Verdict(chunk, beyond) == OK
  {
    if chunk != [] && |done| + |chunk| <= ota.size {
      EndsInside(ota.encrypted, ota.wroteSize, ota.partialBytes, |chunk|, ota.eraseSize, ota.size);
    }
  }

  /** Input that fits the partition is neither erased for nor written beyond its end. */
  lemma EndsInside(enc: bool, w: nat, p: nat, n: nat, e: nat, size: nat)
    requires e > 0 && n > 0 && Aligned(size, e) && w + p + n <= size
    ensures SectorEnd(w + n, e) <= size && Flushed(enc, w + p + n) <= size
  {
    var s := Start(w + n - 1, e);
    StartAligned(w + n - 1, e);
    if size < s + e {
      SameAligned(s, size, e);
    }
  }

  lemma FlushedGrows(enc: bool, w: nat, p: nat, n: nat)
    requires if enc then Aligned(w, 16) && p < 16 else p == 0
    ensures w <= Flushed(enc, w + p + n)
  {
  }

  /** One more write keeps the tie between the count of dirty writes and the erased bytes. */
  lemma CoveredGrows(init: seq<bool>, ahead: bool, end: nat, w: nat, d: nat, end1: nat, w1: nat, d1: nat)
    requires d == 0 <==> Covered(init, end, 0, w)
    requires w <= w1 && d <= d1 && (d1 == d <==> Covered(init, end1, w, w1))
    requires if ahead then w <= end && w1 <= end1 else end1 == end
    ensures d1 == 0 <==> Covered(init, end1, 0, w1)
  {
  }

  lemma PaddingVerdict(ota: OtaSession, t0: nat, n: nat)
    requires ota.Valid() && Tracks(ota, t0, n)
    requires ota.wroteSize + ota.partialBytes == t0 + n && ota.wroteSize == Flushed(ota.encrypted, t0 + n)
    ensures ota.PaddingErased() <==> PaddingCovered(ota, t0, n)
    ensures ota.encrypted && ota.partialBytes == 0 ==> !Exposed(ota.eraseSize, t0, n)
  {
    PartialIs(t0 + n, Start(t0 + n, 16), t0 + n - Start(t0 + n, 16));
    if ota.encrypted && n > 0 && ota.needErase {
      PaddingNumbers(ota.eraseSize, t0, n, ota.wroteSize, ota.partialBytes, ota.erasedEnd);
    }
  }

  lemma PaddingNumbers(e: nat, t0: nat, n: nat, w: nat, p: nat, end: nat)
    requires e > 0 && n > 0 && Aligned(e, 16) && w + p == t0 + n
    requires w == Start(w + p, 16) && end == SectorEnd(Start(t0, 16) + n, e)
    ensures end == w || w + 16 <= end
    ensures p > 0 ==> (end == w <==> Exposed(e, t0, n))
    ensures p == 0 ==> !Exposed(e, t0, n)
  {
    StartAligned(t0 + n, 16);
    ExposedBy(e, t0, n, w, end);
    PartialIs(t0 + n, w, p);
    SectorLeavesRoom(w, end, e);
  }

  lemma PartialIs(t: nat, w: nat, p: nat)
    requires w == Start(t, 16) && w + p == t
    ensures p > 0 <==> !Aligned(t, 16)
  {
  }

  /** Whenever two chunks leave the padding block Exposed, the session that takes them ends by writing unerased flash. */
  method ExposedEndsDirty(ota: OtaSession, first: seq<bv8>, second: seq<bv8>, beyond: bv8) returns (r: Err)
    requires Opened(ota) && ota.needErase && ota.encrypted && first != [] && |first| + |second| <= ota.size <= U32_MAX
    requires MagicOk(ota.kind, first, beyond) && Exposed(ota.eraseSize, |first|, |second|)
    requires var w := Start(|first| + |second|, 16); w < |ota.initErased| && !ota.initErased[w]
    modifies ota, ota.data, ota.erased, ota.partialData
    ensures r == OK && ota.dirty > 0
  {
    TwoChunks(ota.kind, first, second, beyond);
    PartialIs(|first| + |second|, Start(|first| + |second|, 16), (|first| + |second|) % 16);
    r := Install(ota, [first, second], beyond, true);
  }

  lemma TwoChunks(kind: Kind, first: seq<bv8>, second: seq<bv8>, beyond: bv8)
    requires first != [] && second != [] && MagicOk(kind, first, beyond)
    ensures Flatten([first, second]) == first + second && LastChunk([first, second]) == (|first|, |second|)
    ensures StartsOk(kind, [first, second], beyond)
  {
    assert [first, second][..1] == [first] && [first][..0] == [];
    assert Flatten([first]) == [] + first == first;
  }

  /**
   The claim that the padding block is always written to erased flash is false: on a partition with 4096-byte
   sectors of which nothing is erased, 4088 bytes and then 12 make esp_ota_end write unerased bytes.
   */
  method PaddingCanMissItsErase(data: array<bv8>, erased: array<bool>, first: seq<bv8>, second: seq<bv8>)
    returns (ota: OtaSession, r: Err)
    requires data.Length == erased.Length == 8192 && (data as object) != erased && !erased[4096]
    requires |first| == 4088 && |second| == 12 && first[0] == IMAGE_MAGIC
    modifies data, erased
    ensures r == OK && ota.dirty > 0
  {
    TwoSectors();
    ota := new OtaSession.Begin(data, erased, 4096, true, App, None);
    r := ExposedEndsDirty(ota, first, second, 0);
  }

  lemma TwoSectors()
    ensures Aligned(4096, 16) && Aligned(8192, 4096)
    ensures Start(4100, 16) == 4096 && Exposed(4096, 4088, 12)
  {
  }

  /** An image with a wrong first byte is refused, and the session stays empty. */
  method WrongMagicIsRefused(ota: OtaSession, input: seq<bv8>, beyond: bv8) returns (r: Err)
    requires Opened(ota) && ota.kind == App && input != [] && input[0] != 0xE9 && |input| <= ota.size <= U32_MAX
    modifies ota, ota.data, ota.erased, ota.partialData
    ensures r == ValidateFailed && ota.wroteSize == ota.partialBytes == 0
  {
    EndsInside(ota.encrypted, 0, 0, |input|, ota.eraseSize, ota.size);
    r := ota.Write(input, beyond);
  }
}
