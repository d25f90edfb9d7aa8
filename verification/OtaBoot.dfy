/**
 The boot record of the OTA data partition: two sectors with one entry each, the selection of the boot
 partition, the crash-safe switch, rollback, and the second implementation of the switch in otatool.
 A reset may happen between or inside any two flash operations, so the model logs every record a reset could find.
 */
module OtaBoot {
  import opened Common

  datatype ImgState = New | PendingVerify | Confirmed | Invalid | Aborted | Undefined

  /** esp_ota_select_entry_t; the CRC covers the sequence number only. */
  datatype Entry = Entry(ota_seq: nat, state: ImgState, crc: nat)

  datatype Target = Factory | Slot(i: nat) | TestApp | NoApp

  /** The app partitions: factory, OTA slots (numbers below 16), test. */
  datatype Table = Table(factory: bool, slots: set<nat>, test: bool)

  /**
   What the boot logic depends on: the CRC routine, the partition table, the image check,
   and whether CONFIG_BOOTLOADER_APP_ROLLBACK_ENABLE is set.
   */
  datatype Board = Board(crc: nat -> nat, table: Table, imageOk: Target -> bool, rollback: bool)

  datatype Err = OK | Fail | InvalidArg | NotFound | ValidateFailed | RollbackFailed

  const Blank := Entry(U32_MAX, Undefined, U32_MAX)

  // ---------------------------------------------------------------------------------------------
  // Selection
  // ---------------------------------------------------------------------------------------------

  predicate CrcOk(b: Board, e: Entry) {
    e.crc == b.crc(e.ota_seq)
  }

  predicate Unusable(e: Entry) {
    e.ota_seq == U32_MAX || e.state == Invalid || e.state == Aborted
  }

  /** bootloader_common_ota_select_valid. */
  predicate Valid(b: Board, e: Entry) {
    !Unusable(e) && CrcOk(b, e)
  }

  /** bootloader_common_select_otadata with the larger number wanted; entry 0 wins a tie. */
  function Larger(rec: seq<Entry>, valid0: bool, valid1: bool): int
    requires |rec| == 2
  {
    if valid0 && valid1 then (if rec[0].ota_seq >= rec[1].ota_seq then 0 else 1)
    else if valid0 then 0
    else if valid1 then 1
    else -1
  }

  /** bootloader_common_get_active_otadata. */
  function Active(b: Board, rec: seq<Entry>): (a: int)
    requires |rec| == 2
    ensures -1 <= a <= 1
    ensures a == -1 <==> !Valid(b, rec[0]) && !Valid(b, rec[1])
    ensures a >= 0 ==> Valid(b, rec[a]) && forall i | 0 <= i < 2 && Valid(b, rec[i]) :: rec[i].ota_seq <= rec[a].ota_seq
    ensures a == 1 ==> !Valid(b, rec[0]) || rec[0].ota_seq < rec[1].ota_seq
  {
    Larger(rec, Valid(b, rec[0]), Valid(b, rec[1]))
  }

  /** `(ota_seq - 1) % n` on 32-bit unsigned numbers. */
  function SlotOf(s: nat, n: nat): nat
    requires n > 0
  {
    (if s == 0 then U32_MAX else s - 1) % n
  }

  /** On 32-bit numbers 0 is followed, going down, by 0xFFFFFFFF. */
  lemma SlotOfWraps(s: nat, n: nat)
    requires s <= 0xFFFF_FFFF && n > 0
    ensures SlotOf(s, n) == (s + 0x1_0000_0000 - 1) % 0x1_0000_0000 % n
  {
    if s > 0 {
      assert (s + 0x1_0000_0000 - 1) % 0x1_0000_0000 == s - 1;
    }
  }

  function FirstMissing(slots: set<nat>, i: nat): nat
    decreases 16 - i
  {
    if i < 16 && i in slots then FirstMissing(slots, i + 1) else i
  }

  /** esp_ota_get_app_partition_count: the slots 0, 1, ... that are present. */
  function AppCount(t: Table): nat {
    FirstMissing(t.slots, 0)
  }

  lemma {:induction false} FirstMissingIs(slots: set<nat>, i: nat)
    requires i <= 16
    ensures i <= FirstMissing(slots, i) <= 16
    ensures forall k | i <= k < FirstMissing(slots, i) :: k in slots
    ensures FirstMissing(slots, i) < 16 ==> FirstMissing(slots, i) !in slots
    decreases 16 - i
  {
    if i < 16 && i in slots {
      FirstMissingIs(slots, i + 1);
    }
  }

  /** The loop of esp_ota_get_app_partition_count. */
  method CountApps(t: Table) returns (n: nat)
    ensures n == AppCount(t)
  {
    n := 0;
    while n < 16 && n in t.slots
      invariant n <= 16 && FirstMissing(t.slots, 0) == FirstMissing(t.slots, n)
    {
      n := n + 1;
    }
  }

  function LowestSlot(slots: set<nat>, i: nat): Target
    decreases 16 - i
  {
    if i >= 16 then NoApp else if i in slots then Slot(i) else LowestSlot(slots, i + 1)
  }

  /** find_default_boot_partition. */
  function DefaultBoot(t: Table): Target {
    if t.factory then Factory
    else if LowestSlot(t.slots, 0).Slot? then LowestSlot(t.slots, 0)
    else if t.test then TestApp
    else NoApp
  }

  /** Without a selection the factory app boots if there is one, else the lowest slot, else the test app. */
  lemma DefaultBootIs(t: Table)
    ensures DefaultBoot(t) == Factory <==> t.factory
    ensures forall i :: DefaultBoot(t) == Slot(i) <==> !t.factory && i < 16 && i in t.slots && forall j | 0 <= j < i :: j !in t.slots
    ensures DefaultBoot(t) == TestApp <==> !t.factory && t.test && forall i | 0 <= i < 16 :: i !in t.slots
    ensures DefaultBoot(t) == NoApp <==> !t.factory && !t.test && forall i | 0 <= i < 16 :: i !in t.slots
  {
    LowestSlotIs(t.slots, 0);
  }

  lemma {:induction false} LowestSlotIs(slots: set<nat>, i: nat)
    requires i <= 16
    ensures LowestSlot(slots, i).Slot? || LowestSlot(slots, i).NoApp?
    ensures LowestSlot(slots, i).NoApp? <==> forall j | i <= j < 16 :: j !in slots
    ensures forall k :: LowestSlot(slots, i) == Slot(k) <==> i <= k < 16 && k in slots && forall j | i <= j < k :: j !in slots
    decreases 16 - i
  {
    if i < 16 && i !in slots {
      LowestSlotIs(slots, i + 1);
    }
  }

  /** esp_ota_get_boot_partition. */
  function Boot(b: Board, rec: seq<Entry>): Target
    requires |rec| == 2
  {
    var n := AppCount(b.table);
    if (Unusable(rec[0]) && Unusable(rec[1])) || n == 0 then DefaultBoot(b.table)
    else
      var a := Active(b, rec);
      if a != -1 then Slot(SlotOf(rec[a].ota_seq, n)) else DefaultBoot(b.table)
  }

  /** The selection only depends on the active entry. */
  lemma BootByActive(b: Board, rec: seq<Entry>)
    requires |rec| == 2
    ensures Boot(b, rec) ==
            if AppCount(b.table) == 0 || Active(b, rec) == -1 then DefaultBoot(b.table)
            else Slot(SlotOf(rec[Active(b, rec)].ota_seq, AppCount(b.table)))
  {
  }

  // ---------------------------------------------------------------------------------------------
  // The next sequence number
  // ---------------------------------------------------------------------------------------------

  /** The least number from `current` on whose remainder is that of `slot + 1`. */
  function NextSeq(current: nat, slot: nat, n: nat): nat
    requires n > 0
  {
    var base := (slot + 1) % n;
    if current <= base then base else current + (base - current) % n
  }

  lemma NextSeqLeast(current: nat, slot: nat, n: nat)
    requires n > 0
    ensures var r := NextSeq(current, slot, n);
            && current <= r < current + n && r % n == (slot + 1) % n
            && forall k | current <= k < r :: k % n != (slot + 1) % n
  {
    var base, r := (slot + 1) % n, NextSeq(current, slot, n);
    if current > base {
      var d := (base - current) % n;
      Shift(base - current, n);
      assert r == base + n * ((current - base + d) / n) by {
        ExactDiv(current - base + d, n);
      }
      AddMultiple(base, (current - base + d) / n, n);
    } else {
      SmallMod(base, n);
    }
    forall k | current <= k < r ensures k % n != base {
      NoneBetween(k, r, n);
    }
  }

  lemma Shift(x: int, n: nat)
    requires n > 0
    ensures (x % n - x) % n == 0
  {
    assert x % n - x == n * (-(x / n));
    MultipleMod(-(x / n), n);
  }

  lemma MultipleMod(k: int, n: nat)
    requires n > 0
    ensures n * k % n == 0
  {
    var q, r := n * k / n, n * k % n;
    assert n * (k - q) == r;
    if k - q >= 1 { MulGe(n, k - q); }
    if k - q <= -1 { MulGe(n, q - k); }
  }

  lemma MulGe(n: nat, k: nat)
    requires k >= 1
    ensures n * k >= n
  {
  }

  lemma ExactDiv(x: nat, n: nat)
    requires n > 0 && x % n == 0
    ensures x == n * (x / n)
  {
  }

  lemma AddMultiple(base: nat, k: int, n: nat)
    requires base < n
    ensures (base + n * k) % n == base
  {
    var x := base + n * k;
    assert n * (x / n - k) == base - x % n;
    if x / n - k >= 1 { MulGe(n, x / n - k); }
    if x / n - k <= -1 { MulGe(n, k - x / n); }
  }

  lemma SmallMod(x: nat, n: nat)
    requires x < n
    ensures x % n == x
  {
  }

  lemma NoneBetween(k: nat, r: nat, n: nat)
    requires n > 0 && k < r < k + n
    ensures k % n != r % n
  {
    if k % n == r % n {
      assert r - k == n * (r / n - k / n);
      if r / n - k / n >= 1 { MulGe(n, r / n - k / n); }
      if r / n - k / n <= -1 { MulGe(n, k / n - r / n); }
    }
  }

  lemma NextSeqUnique(current: nat, slot: nat, n: nat, r: nat)
    requires n > 0 && current <= r && r % n == (slot + 1) % n
    requires r < current + n || r == (slot + 1) % n
    ensures r == NextSeq(current, slot, n)
  {
    NextSeqLeast(current, slot, n);
    var s := NextSeq(current, slot, n);
    if s < r < s + n {
      NoneBetween(s, r, n);
    }
  }

  /** The number selects the slot it was computed for. */
  lemma SeqSelectsSlot(s: nat, slot: nat, n: nat)
    requires n > 0 && slot < n && s >= 1
    ensures SlotOf(s, n) == slot <==> s % n == (slot + 1) % n
  {
    SuccMod(s - 1, n);
    SmallMod(slot, n);
    SuccMod(slot, n);
  }

  lemma SuccMod(x: nat, n: nat)
    requires n > 0
    ensures (x + 1) % n == if x % n + 1 < n then x % n + 1 else 0
  {
    var q, m := x / n, x % n;
    assert x == n * q + m;
    if m + 1 < n {
      AddMultiple(m + 1, q, n);
    } else {
      assert n * (q + 1) == n * q + n;
      AddMultiple(0, q + 1, n);
    }
  }

  /**
   If the least number does not fit 32 bits, the search wraps: whatever it stops at selects another slot, and with
   a number of slots that divides 2^32 it never stops.
   */
  lemma WrappedSearchFails(current: nat, slot: nat, n: nat, i: nat)
    requires n > 0 && NextSeq(current, slot, n) > U32_MAX
    ensures var r := ((slot + 1) % n + i * n) % U32_LIMIT;
            && (current <= r ==> r % n != (slot + 1) % n)
            && (U32_LIMIT % n == 0 ==> r < current)
  {
    var base := (slot + 1) % n;
    var x := base + i * n;
    var r, k := x % U32_LIMIT, x / U32_LIMIT;
    NextSeqLeast(current, slot, n);
    if U32_LIMIT % n == 0 {
      var m := U32_LIMIT / n;
      ExactDiv(U32_LIMIT, n);
      assert r == base + n * (i - k * m) by {
        assert k * U32_LIMIT == n * (k * m);
      }
      AddMultiple(base, i - k * m, n);
    }
  }

  /** compute_ota_seq_for_target_slot, as far as the least number fits 32 bits. */
  method ComputeSeq(current: nat, slot: nat, n: nat) returns (r: nat)
    requires current <= U32_MAX && (n > 0 ==> NextSeq(current, slot, n) <= U32_MAX)
    ensures n == 0 ==> r == 0
    ensures n > 0 ==> r == NextSeq(current, slot, n)
  {
    if n == 0 {
      return 0;
    }
    var i := 0;
    var base := (slot + 1) % n;
    SmallMod(base, n);
    while current > base + i * n
      invariant (base + i * n) % n == base
      invariant base + i * n < current + n || i == 0
      decreases current - (base + i * n)
    {
      assert base + (i + 1) * n == base + n * (i + 1) == base + i * n + n;
      AddMultiple(base, i + 1, n);
      i := i + 1;
    }
    r := base + i * n;
    NextSeqUnique(current, slot, n, r);
  }

  // ---------------------------------------------------------------------------------------------
  // Switching the boot partition
  // ---------------------------------------------------------------------------------------------

  /** `subtype & 0x0F`. */
  function OtaSlot(subtype: nat): nat { subtype % 16 }

  /** Sector and number esp_rewrite_ota_data writes for `slot`. */
  function SwitchSector(b: Board, rec: seq<Entry>, slot: nat): int
    requires |rec| == 2 && AppCount(b.table) > 0
  {
    var a := Active(b, rec);
    if a == -1 then 0
    else if SlotOf(rec[a].ota_seq, AppCount(b.table)) == slot then a
    else 1 - a
  }

  function SwitchSeq(b: Board, rec: seq<Entry>, slot: nat): nat
    requires |rec| == 2 && AppCount(b.table) > 0
  {
    var a := Active(b, rec);
    if a == -1 then slot + 1
    else if SlotOf(rec[a].ota_seq, AppCount(b.table)) == slot then rec[a].ota_seq
    else NextSeq(rec[a].ota_seq, slot, AppCount(b.table))
  }

  /** The requested slot is the active one: the source then rewrites the active entry in place. */
  predicate InPlace(b: Board, rec: seq<Entry>, slot: nat)
    requires |rec| == 2 && AppCount(b.table) > 0
  {
    Active(b, rec) != -1 && SlotOf(rec[Active(b, rec)].ota_seq, AppCount(b.table)) == slot
  }

  function NewState(b: Board): ImgState {
    if b.rollback then New else Undefined
  }

  function Switched(b: Board, rec: seq<Entry>, slot: nat): seq<Entry>
    requires |rec| == 2 && AppCount(b.table) > 0
  {
    var s := SwitchSeq(b, rec, slot);
    rec[SwitchSector(b, rec, slot) := Entry(s, NewState(b), b.crc(s))]
  }

  /** Valid entries never carry number 0; every call keeps it so. */
  predicate NoZero(b: Board, rec: seq<Entry>)
    requires |rec| == 2
  {
    (Valid(b, rec[0]) ==> rec[0].ota_seq >= 1) && (Valid(b, rec[1]) ==> rec[1].ota_seq >= 1)
  }

  /** The new number is neither the mark of an erased entry nor a new 0, which would select no slot of its own. */
  predicate GoodSwitch(b: Board, rec: seq<Entry>, slot: nat)
    requires |rec| == 2 && AppCount(b.table) > 0
  {
    SwitchSeq(b, rec, slot) != U32_MAX && (SwitchSeq(b, rec, slot) != 0 || InPlace(b, rec, slot))
  }

  /** Unless the entry is rewritten in place, the new number is above the active one, except for a 0 followed by a 0. */
  lemma SwitchCountsUp(b: Board, rec: seq<Entry>, slot: nat)
    requires |rec| == 2 && slot < AppCount(b.table) && Active(b, rec) != -1
    ensures var s0 := rec[Active(b, rec)].ota_seq;
            && SwitchSeq(b, rec, slot) >= s0
            && (SwitchSeq(b, rec, slot) > s0 <==> !InPlace(b, rec, slot) && (s0 >= 1 || slot + 1 < AppCount(b.table)))
  {
    var s0, n := rec[Active(b, rec)].ota_seq, AppCount(b.table);
    NextSeqLeast(s0, slot, n);
    if s0 >= 1 {
      SeqSelectsSlot(s0, slot, n);
    }
    SuccMod(slot, n);
    SmallMod(slot, n);
  }

  /** With no valid entry the first sector gets the number of the slot, counted from 1. */
  lemma FirstSwitch(b: Board, rec: seq<Entry>, slot: nat)
    requires |rec| == 2 && slot < AppCount(b.table) && Active(b, rec) == -1
    ensures Switched(b, rec, slot) == [Entry(slot + 1, if b.rollback then New else Undefined, b.crc(slot + 1)), rec[1]]
  {
  }

  /** On every record the switch selects the requested slot exactly if the new number is a good one. */
  lemma SwitchSelects(b: Board, rec: seq<Entry>, slot: nat)
    requires |rec| == 2 && slot < AppCount(b.table)
    ensures Boot(b, Switched(b, rec, slot)).Slot?
    ensures Boot(b, Switched(b, rec, slot)) == Slot(slot) <==> GoodSwitch(b, rec, slot)
    ensures NoZero(b, rec) ==> SwitchSeq(b, rec, slot) != 0 && NoZero(b, Switched(b, rec, slot))
  {
    var n, a, s, rec1 := AppCount(b.table), Active(b, rec), SwitchSeq(b, rec, slot), Switched(b, rec, slot);
    FirstMissingIs(b.table.slots, 0);
    BootByActive(b, rec1);
    BootByActive(b, rec);
    if a == -1 {
      SeqSelectsSlot(s, slot, n);
    } else if !InPlace(b, rec, slot) {
      NextSeqLeast(rec[a].ota_seq, slot, n);
      if s >= 1 {
        SeqSelectsSlot(s, slot, n);
      }
      if rec[a].ota_seq >= 1 {
        SeqSelectsSlot(rec[a].ota_seq, slot, n);
        assert s > rec[a].ota_seq;
      }
    }
  }

  // ---------------------------------------------------------------------------------------------
  // Resets in the middle
  // ---------------------------------------------------------------------------------------------

  /** What boots when only `other` is left of the record. */
  function FallBack(b: Board, other: Entry): Target {
    if AppCount(b.table) == 0 || !Valid(b, other) then DefaultBoot(b.table)
    else Slot(SlotOf(other.ota_seq, AppCount(b.table)))
  }

  /** A sector that is blank or torn drops out of the selection. */
  lemma LosingASector(b: Board, rec: seq<Entry>, sec: int, e: Entry)
    requires |rec| == 2 && 0 <= sec < 2 && !Valid(b, e)
    ensures Boot(b, rec[sec := e]) == FallBack(b, rec[1 - sec])
    ensures Active(b, rec) != sec ==> FallBack(b, rec[1 - sec]) == Boot(b, rec)
  {
    BootByActive(b, rec[sec := e]);
    BootByActive(b, rec);
  }

  /** Every record a reset can find while sector `sec` is erased and then written with `e`, in order. */
  function RewriteLog(rec: seq<Entry>, sec: int, e: Entry, torn: (Entry, Entry)): (log: seq<seq<Entry>>)
    requires |rec| == 2 && 0 <= sec < 2
    ensures |log| == 4 && forall k | 0 <= k < 4 :: |log[k]| == 2
  {
    [rec[sec := torn.0], rec[sec := Blank], rec[sec := torn.1], rec[sec := e]]
  }

  /** Everything in `log` boots `x` or `y`. */
  ghost predicate BootsOnly(b: Board, log: seq<seq<Entry>>, x: Target, y: Target) {
    forall k | 0 <= k < |log| :: |log[k]| == 2 && (Boot(b, log[k]) == x || Boot(b, log[k]) == y)
  }

  predicate Torn(b: Board, torn: (Entry, Entry)) {
    !CrcOk(b, torn.0) && !CrcOk(b, torn.1)
  }

  /** A rewrite exposes, besides the final record, exactly the fall-back on the other sector. */
  lemma RewriteExposes(b: Board, rec: seq<Entry>, sec: int, e: Entry, torn: (Entry, Entry))
    requires |rec| == 2 && 0 <= sec < 2 && Torn(b, torn)
    ensures BootsOnly(b, RewriteLog(rec, sec, e, torn), FallBack(b, rec[1 - sec]), Boot(b, rec[sec := e]))
    ensures Boot(b, RewriteLog(rec, sec, e, torn)[1]) == FallBack(b, rec[1 - sec])
  {
    LosingASector(b, rec, sec, torn.0);
    LosingASector(b, rec, sec, Blank);
    LosingASector(b, rec, sec, torn.1);
  }

  /** Crash safety of the switch: at any moment the old partition boots or the new one, unless done in place. */
  lemma SwitchIsAtomic(b: Board, rec: seq<Entry>, slot: nat, torn: (Entry, Entry))
    requires |rec| == 2 && slot < AppCount(b.table) && Torn(b, torn) && !InPlace(b, rec, slot)
    ensures var sec, rec1 := SwitchSector(b, rec, slot), Switched(b, rec, slot);
            BootsOnly(b, RewriteLog(rec, sec, rec1[sec], torn), Boot(b, rec), Boot(b, rec1))
  {
    var sec, rec1 := SwitchSector(b, rec, slot), Switched(b, rec, slot);
    RewriteExposes(b, rec, sec, rec1[sec], torn);
    LosingASector(b, rec, sec, Blank);
    assert rec[sec := rec1[sec]] == rec1;
  }

  /** In place it is atomic exactly if losing the active entry would boot the same partition anyway. */
  lemma InPlaceIsAtomicIff(b: Board, rec: seq<Entry>, slot: nat, torn: (Entry, Entry))
    requires |rec| == 2 && slot < AppCount(b.table) && Torn(b, torn) && InPlace(b, rec, slot)
    ensures var sec, rec1 := SwitchSector(b, rec, slot), Switched(b, rec, slot);
            && Boot(b, rec1) == Boot(b, rec) == Slot(slot)
            && (BootsOnly(b, RewriteLog(rec, sec, rec1[sec], torn), Boot(b, rec), Boot(b, rec1))
                <==> FallBack(b, rec[1 - sec]) == Slot(slot))
  {
    var sec, rec1 := SwitchSector(b, rec, slot), Switched(b, rec, slot);
    RewriteExposes(b, rec, sec, rec1[sec], torn);
    assert rec[sec := rec1[sec]] == rec1;
    var log := RewriteLog(rec, sec, rec1[sec], torn);
    assert log[1] == rec[sec := Blank];
  }

  // ---------------------------------------------------------------------------------------------
  // Rollback
  // ---------------------------------------------------------------------------------------------

  /** esp_ota_check_rollback_is_possible, anti-rollback off. */
  function RollbackPossible(b: Board, rec: seq<Entry>): bool
    requires |rec| == 2
  {
    var n, a := AppCount(b.table), Active(b, rec);
    if n == 0 || a == -1 then false
    else if !Valid(b, rec[1 - a]) then b.table.factory && b.imageOk(Factory)
    else b.imageOk(Slot(SlotOf(rec[1 - a].ota_seq, n)))
  }

  /**
   Rolling back is possible exactly if what would boot without the active entry is another valid slot or the factory
   app, and its image is good.
   */
  lemma RollbackPossibleIff(b: Board, rec: seq<Entry>)
    requires |rec| == 2
    ensures RollbackPossible(b, rec) <==>
            && AppCount(b.table) > 0 && Active(b, rec) != -1
            && var other := rec[1 - Active(b, rec)];
            (Valid(b, other) || b.table.factory) && b.imageOk(FallBack(b, other))
  {
  }

  /** Marking the active entry invalid makes the fall-back boot, which is what the check has examined. */
  lemma RollbackBootsChecked(b: Board, rec: seq<Entry>, torn: (Entry, Entry))
    requires |rec| == 2 && RollbackPossible(b, rec) && Torn(b, torn)
    ensures var a := Active(b, rec);
            var e := Entry(rec[a].ota_seq, Invalid, b.crc(rec[a].ota_seq));
            && Boot(b, rec[a := e]) == FallBack(b, rec[1 - a])
            && b.imageOk(Boot(b, rec[a := e]))
            && (Boot(b, rec[a := e]) == if Valid(b, rec[1 - a]) then Slot(SlotOf(rec[1 - a].ota_seq, AppCount(b.table))) else Factory)
            && BootsOnly(b, RewriteLog(rec, a, e, torn), FallBack(b, rec[1 - a]), FallBack(b, rec[1 - a]))
  {
    var a := Active(b, rec);
    var e := Entry(rec[a].ota_seq, Invalid, b.crc(rec[a].ota_seq));
    LosingASector(b, rec, a, e);
    RewriteExposes(b, rec, a, e, torn);
  }

  /** The active entry, confirmed. */
  function Confirmation(b: Board, rec: seq<Entry>): Entry
    requires |rec| == 2 && Active(b, rec) != -1
  {
    var s := rec[Active(b, rec)].ota_seq;
    Entry(s, Confirmed, b.crc(s))
  }

  /**
   Confirming the running app rewrites the active entry in place: a reset in the middle boots the fall-back, so this
   too is atomic exactly if the fall-back is the same partition.
   */
  lemma ConfirmIsAtomicIff(b: Board, rec: seq<Entry>, torn: (Entry, Entry))
    requires |rec| == 2 && Active(b, rec) != -1 && AppCount(b.table) > 0 && Torn(b, torn)
    ensures var a, e := Active(b, rec), Confirmation(b, rec);
            && Boot(b, rec[a := e]) == Boot(b, rec)
            && (BootsOnly(b, RewriteLog(rec, a, e, torn), Boot(b, rec), Boot(b, rec)) <==> FallBack(b, rec[1 - a]) == Boot(b, rec))
  {
    var a, e := Active(b, rec), Confirmation(b, rec);
    BootByActive(b, rec);
    BootByActive(b, rec[a := e]);
    RewriteExposes(b, rec, a, e, torn);
    assert RewriteLog(rec, a, e, torn)[1] == rec[a := Blank];
  }

  // ---------------------------------------------------------------------------------------------
  // The calls, on the two flash sectors
  // ---------------------------------------------------------------------------------------------

  class OtaData {
    const b: Board
    const present: bool                // the OTA data partition exists
    var sectors: seq<Entry>            // the two entries on flash
    ghost var log: seq<seq<Entry>>     // every record a reset could have found so far

    ghost predicate Ok()
      reads this
    {
      |sectors| == 2
    }

    method EraseSector(sec: nat, ghost torn: Entry)
      requires Ok() && sec < 2
      modifies this
      ensures sectors == old(sectors)[sec := Blank]
      ensures log == old(log) + [old(sectors)[sec := torn], sectors]
    {
      log := log + [sectors[sec := torn], sectors[sec := Blank]];
      sectors := sectors[sec := Blank];
    }

    method WriteSector(sec: nat, e: Entry, ghost torn: Entry)
      requires Ok() && sec < 2
      modifies this
      ensures sectors == old(sectors)[sec := e]
      ensures log == old(log) + [old(sectors)[sec := torn], sectors]
    {
      log := log + [sectors[sec := torn], sectors[sec := e]];
      sectors := sectors[sec := e];
    }

    /** rewrite_ota_seq; `two` is the caller's copy of the record. */
    method RewriteOtaSeq(two: seq<Entry>, s: nat, sec: nat, ghost torn: (Entry, Entry)) returns (r: Err)
      requires Ok() && |two| == 2
      modifies this
      ensures r == if sec > 1 then InvalidArg else OK
      ensures r != OK ==> sectors == old(sectors) && log == old(log)
      ensures r == OK ==>
                var e := Entry(s, two[sec].state, b.crc(s));
                sectors == old(sectors)[sec := e] && log == old(log) + RewriteLog(old(sectors), sec, e, torn)
    {
      if sec > 1 {
        return InvalidArg;
      }
      var e := two[sec].(ota_seq := s);
      e := e.(crc := b.crc(e.ota_seq));
      ghost var rec := sectors;
      EraseSector(sec, torn.0);
      WriteSector(sec, e, torn.1);
      assert rec[sec := Blank][sec := torn.1] == rec[sec := torn.1];
      assert rec[sec := Blank][sec := e] == rec[sec := e];
      return OK;
    }

    /** esp_rewrite_ota_data. */
    method RewriteOtaData(subtype: nat, ghost torn: (Entry, Entry)) returns (r: Err)
      requires Ok() && Torn(b, torn)
      requires OtaSlot(subtype) < AppCount(b.table) ==> SwitchSeq(b, sectors, OtaSlot(subtype)) <= U32_MAX
      modifies this
      ensures r == if !present then NotFound else if OtaSlot(subtype) >= AppCount(b.table) then InvalidArg else OK
      ensures r != OK ==> sectors == old(sectors) && log == old(log)
      ensures Ok() && old(log) <= log
      ensures r == OK ==> sectors == Switched(b, old(sectors), OtaSlot(subtype))
      ensures r == OK && !InPlace(b, old(sectors), OtaSlot(subtype)) ==>
                BootsOnly(b, log[|old(log)|..], Boot(b, old(sectors)), Boot(b, sectors))
      ensures r == OK ==>
                Boot(b, sectors).Slot? && (Boot(b, sectors) == Slot(OtaSlot(subtype)) <==> GoodSwitch(b, old(sectors), OtaSlot(subtype)))
      ensures NoZero(b, old(sectors)) ==> NoZero(b, sectors)
    {
      if !present {
        return NotFound;
      }
      var otadata := sectors;
      var n := CountApps(b.table);
      var slot := OtaSlot(subtype);
      if slot >= n {
        return InvalidArg;
      }
      var active := Active(b, otadata);
      var next: nat, newSeq;
      if active != -1 {
        if SlotOf(otadata[active].ota_seq, n) == slot {
          next, newSeq := active, otadata[active].ota_seq;
        } else {
          next := 1 - active;
          NextSeqLeast(otadata[active].ota_seq, slot, n);
          newSeq := ComputeSeq(otadata[active].ota_seq, slot, n);
        }
      } else {
        next, newSeq := 0, slot + 1;
      }
      ghost var e := Entry(newSeq, NewState(b), b.crc(newSeq));
      otadata := otadata[next := otadata[next].(state := NewState(b))];
      if !InPlace(b, sectors, slot) {
        SwitchIsAtomic(b, sectors, slot, torn);
      }
      SwitchSelects(b, sectors, slot);
      r := RewriteOtaSeq(otadata, newSeq, next, torn);
      assert log[|old(log)|..] == RewriteLog(old(sectors), next, e, torn);
    }

    /** esp_ota_current_ota_is_workable(true): confirm the running app. */
    method MarkValid(ghost torn: (Entry, Entry)) returns (r: Err)
      requires Ok() && Torn(b, torn)
      modifies this
      ensures Ok()
      ensures r == if !present then NotFound
                   else if Active(b, old(sectors)) == -1 || AppCount(b.table) == 0 then Fail else OK
      ensures r != OK ==> sectors == old(sectors) && log == old(log)
      ensures r == OK ==> Boot(b, sectors) == Boot(b, old(sectors)) && Active(b, sectors) == Active(b, old(sectors))
      ensures r == OK ==> sectors[Active(b, sectors)].state == Confirmed
      ensures NoZero(b, old(sectors)) ==> NoZero(b, sectors)
      ensures r == OK ==>
                var rec, a := old(sectors), Active(b, old(sectors));
                if rec[a].state == Confirmed then sectors == rec && log == old(log)
                else sectors == rec[a := Confirmation(b, rec)] && log == old(log) + RewriteLog(rec, a, Confirmation(b, rec), torn)
    {
      if !present {
        return NotFound;
      }
      var otadata := sectors;
      var active := Active(b, otadata);
      var n := CountApps(b.table);
      if active == -1 || n == 0 {
        return Fail;
      }
      if otadata[active].state == Confirmed {
        return OK;
      }
      otadata := otadata[active := otadata[active].(state := Confirmed)];
      r := RewriteOtaSeq(otadata, otadata[active].ota_seq, active, torn);
      BootByActive(b, sectors);
      BootByActive(b, old(sectors));
    }

    /** esp_ota_current_ota_is_workable(false): mark the running app invalid so that the previous one boots. */
    method MarkInvalid(ghost torn: (Entry, Entry)) returns (r: Err)
      requires Ok() && Torn(b, torn)
      modifies this
      ensures Ok() && old(log) <= log
      ensures r == if !present then NotFound
                   else if Active(b, old(sectors)) == -1 || AppCount(b.table) == 0 then Fail
                   else var other := old(sectors)[1 - Active(b, old(sectors))];
                        if (Valid(b, other) || b.table.factory) && b.imageOk(FallBack(b, other)) then OK else RollbackFailed
      ensures r != OK ==> sectors == old(sectors) && log == old(log)
      ensures r == OK ==>
                var other := old(sectors)[1 - Active(b, old(sectors))];
                && Boot(b, sectors) == (if Valid(b, other) then Slot(SlotOf(other.ota_seq, AppCount(b.table))) else Factory)
                && b.imageOk(Boot(b, sectors))
                && BootsOnly(b, log[|old(log)|..], Boot(b, old(sectors)), Boot(b, sectors))
      ensures NoZero(b, old(sectors)) ==> NoZero(b, sectors)
      // only the state of the active entry changes
      ensures r == OK ==>
                var rec, a := old(sectors), Active(b, old(sectors));
                var e := Entry(rec[a].ota_seq, Invalid, b.crc(rec[a].ota_seq));
                sectors == rec[a := e] && log == old(log) + RewriteLog(rec, a, e, torn)
    {
      if !present {
        return NotFound;
      }
      var otadata := sectors;
      var active := Active(b, otadata);
      var n := CountApps(b.table);
      if active == -1 || n == 0 {
        return Fail;
      }
      RollbackPossibleIff(b, sectors);
      if !RollbackPossible(b, sectors) {
        return RollbackFailed;
      }
      RollbackBootsChecked(b, sectors, torn);
      otadata := otadata[active := otadata[active].(state := Invalid)];
      ghost var e := Entry(otadata[active].ota_seq, Invalid, b.crc(otadata[active].ota_seq));
      r := RewriteOtaSeq(otadata, otadata[active].ota_seq, active, torn);
      assert log[|old(log)|..] == RewriteLog(old(sectors), active, e, torn);
    }

    /**
     esp_ota_set_boot_partition for an app partition of the given subtype: factory 0x00, OTA slots from 0x10,
     test 0x20.
     */
    method SetBootPartition(isApp: bool, subtype: nat, ghost torn: (Entry, Entry)) returns (r: Err)
      requires Ok() && Torn(b, torn)
      requires OtaSlot(subtype) < AppCount(b.table) ==> SwitchSeq(b, sectors, OtaSlot(subtype)) <= U32_MAX
      modifies this
      ensures Ok() && old(log) <= log
      ensures r == OK <==> isApp && present && b.imageOk(TargetOf(subtype)) &&
                           (subtype == 0 || OtaSlot(subtype) < AppCount(b.table))
      ensures r != OK ==> sectors == old(sectors) && log == old(log)
      ensures r == OK && subtype == 0 ==> sectors == [Blank, Blank] && log == old(log) + FactoryLog(old(sectors), torn)
      ensures r == OK && subtype != 0 ==> sectors == Switched(b, old(sectors), OtaSlot(subtype))
      // the partition boots exactly if it is an OTA slot and the new number is good
      ensures r == OK && subtype != 0 ==>
                (Boot(b, sectors) == TargetOf(subtype) <==> 0x10 <= subtype < 0x20 && GoodSwitch(b, old(sectors), OtaSlot(subtype)))
      ensures NoZero(b, old(sectors)) ==> NoZero(b, sectors)
      // the app that was asked for starts on trial exactly if rollback is configured
      ensures r == OK && subtype != 0 ==>
                var e := sectors[SwitchSector(b, old(sectors), OtaSlot(subtype))];
                CrcOk(b, e) && e.state == if b.rollback then New else Undefined
    {
      if !b.imageOk(TargetOf(subtype)) {
        return ValidateFailed;
      }
      if !isApp {
        return InvalidArg;
      }
      if subtype == 0 {
        if !present {
          return NotFound;
        }
        ghost var rec := sectors;
        EraseSector(0, torn.0);
        EraseSector(1, torn.1);
        assert sectors == [Blank, Blank];
        assert log == old(log) + FactoryLog(rec, torn);
        return OK;
      }
      r := RewriteOtaData(subtype, torn);
    }
  }

  function TargetOf(subtype: nat): Target {
    if subtype == 0 then Factory
    else if 0x10 <= subtype < 0x20 then Slot(subtype - 0x10)
    else if subtype == 0x20 then TestApp
    else NoApp
  }

  /** The partition subtypes. */
  lemma SubtypesMean(subtype: nat)
    ensures TargetOf(0x00) == Factory && TargetOf(0x20) == TestApp
    ensures 0x10 <= subtype < 0x20 ==> TargetOf(subtype) == Slot(subtype - 0x10) && OtaSlot(subtype) == subtype - 0x10
    ensures TargetOf(subtype) == NoApp <==> 0x00 < subtype < 0x10 || subtype > 0x20
  {
  }

  /** Asking for the factory app erases both sectors, in ascending order. */
  function FactoryLog(rec: seq<Entry>, torn: (Entry, Entry)): (log: seq<seq<Entry>>)
    requires |rec| == 2
    ensures |log| == 4 && forall k | 0 <= k < 4 :: |log[k]| == 2
  {
    [rec[0 := torn.0], rec[0 := Blank], rec[0 := Blank][1 := torn.1], [Blank, Blank]]
  }

  /** Going back to factory is atomic exactly if sector 1 alone does not select a third partition. */
  lemma FactoryIsAtomicIff(b: Board, rec: seq<Entry>, torn: (Entry, Entry))
    requires |rec| == 2 && Torn(b, torn)
    ensures Boot(b, [Blank, Blank]) == DefaultBoot(b.table)
    ensures BootsOnly(b, FactoryLog(rec, torn), Boot(b, rec), DefaultBoot(b.table)) <==>
            FallBack(b, rec[1]) == Boot(b, rec) || FallBack(b, rec[1]) == DefaultBoot(b.table)
  {
    var log := FactoryLog(rec, torn);
    LosingASector(b, rec, 0, torn.0);
    LosingASector(b, rec, 0, Blank);
    LosingASector(b, rec[0 := Blank], 1, torn.1);
    assert log[1] == rec[0 := Blank];
    assert FallBack(b, Blank) == DefaultBoot(b.table);
    assert log[2][0] == Blank && rec[0 := Blank][1] == rec[1];
  }

  // ---------------------------------------------------------------------------------------------
  // otatool, the second implementation
  // ---------------------------------------------------------------------------------------------

  /** is_otadata_info_valid: otatool does not look at the image state. */
  predicate ToolValid(b: Board, e: Entry) {
    e.ota_seq < U32_MAX && CrcOk(b, e)
  }

  /** That is all the tool overlooks. */
  lemma ToolOverlooksState(b: Board, e: Entry)
    requires e.ota_seq <= U32_MAX
    ensures Valid(b, e) <==> ToolValid(b, e) && e.state != Invalid && e.state != Aborted
    ensures ToolValid(b, e) <==> Valid(b, e.(state := Confirmed))
    ensures ToolValid(b, e) ==> e.ota_seq != 0xFFFF_FFFF
  {
  }

  predicate Is32(rec: seq<Entry>) {
    forall i | 0 <= i < |rec| :: rec[i].ota_seq <= U32_MAX
  }

  function ToolBase(b: Board, rec: seq<Entry>): int
    requires |rec| == 2
  {
    Larger(rec, ToolValid(b, rec[0]), ToolValid(b, rec[1]))
  }

  function ToolSector(b: Board, rec: seq<Entry>): nat
    requires |rec| == 2
  {
    if ToolBase(b, rec) == 0 then 1 else 0
  }

  function ToolSeq(b: Board, rec: seq<Entry>, slot: nat): nat
    requires |rec| == 2 && AppCount(b.table) > 0
  {
    if ToolBase(b, rec) == -1 then slot + 1 else NextSeq(rec[ToolBase(b, rec)].ota_seq, slot, AppCount(b.table))
  }

  /** The tool's record: it patches number and CRC of one entry and keeps its image state. */
  function Tooled(b: Board, rec: seq<Entry>, slot: nat): seq<Entry>
    requires |rec| == 2 && AppCount(b.table) > 0
  {
    var sec, s := ToolSector(b, rec), ToolSeq(b, rec, slot);
    rec[sec := Entry(s, rec[sec].state, b.crc(s))]
  }

  /** switch_ota_partition: fails without the slot, and when the number cannot be packed into 32 bits. */
  method ToolSwitch(b: Board, rec: seq<Entry>, slot: nat) returns (rec1: Option<seq<Entry>>)
    requires |rec| == 2
    ensures rec1 == if slot < AppCount(b.table) && ToolSeq(b, rec, slot) <= U32_MAX then Some(Tooled(b, rec, slot)) else None
  {
    var n := CountApps(b.table);
    if slot >= n {
      return None;
    }
    var v0, v1 := ToolValid(b, rec[0]), ToolValid(b, rec[1]);
    var base := -1;
    if v0 && v1 {
      base := if rec[0].ota_seq >= rec[1].ota_seq then 0 else 1;
    } else if v0 {
      base := 0;
    } else if v1 {
      base := 1;
    }
    var target := slot + 1;
    var seqNext := 0;
    if base == 0 || base == 1 {
      var baseSeq := rec[base].ota_seq;
      seqNext := FirstFrom(baseSeq, slot, n);
    } else {
      seqNext := target;
    }
    if seqNext > U32_MAX {
      return None;
    }
    var sec := if base == 0 then 1 else 0;
    rec1 := Some(rec[sec := rec[sec].(ota_seq := seqNext, crc := b.crc(seqNext))]);
  }

  /** The search loop of switch_ota_partition, on unbounded integers. */
  method FirstFrom(baseSeq: nat, slot: nat, n: nat) returns (r: nat)
    requires n > 0
    ensures r == NextSeq(baseSeq, slot, n)
  {
    var target := slot + 1;
    var i := 0;
    SmallMod(target % n, n);
    while baseSeq > target % n + i * n
      invariant (target % n + i * n) % n == target % n
      invariant target % n + i * n < baseSeq + n || i == 0
      decreases baseSeq - (target % n + i * n)
    {
      assert target % n + (i + 1) * n == target % n + n * (i + 1) == target % n + i * n + n;
      AddMultiple(target % n, i + 1, n);
      i := i + 1;
    }
    r := target % n + i * n;
    NextSeqUnique(baseSeq, slot, n, r);
  }

  /** The tool writes the same number to the same sector as the firmware. */
  predicate Agree(b: Board, rec: seq<Entry>, slot: nat)
    requires |rec| == 2 && AppCount(b.table) > 0
  {
    ToolSector(b, rec) == SwitchSector(b, rec, slot) && ToolSeq(b, rec, slot) == SwitchSeq(b, rec, slot)
  }

  /**
   On every record: tool and firmware agree exactly if they start from the same entry, up to a coincidence of two
   numbers. A slot that is already active they rewrite differently, unless both entries carry its number.
   */
  lemma ToolAgrees(b: Board, rec: seq<Entry>, slot: nat)
    requires |rec| == 2 && Is32(rec) && slot < AppCount(b.table)
    ensures !InPlace(b, rec, slot) ==>
              (Agree(b, rec, slot) <==>
               || ToolBase(b, rec) == Active(b, rec)
               || (Active(b, rec) == -1 && ToolBase(b, rec) == 1 && NextSeq(rec[1].ota_seq, slot, AppCount(b.table)) == slot + 1))
    ensures InPlace(b, rec, slot) ==>
              (Agree(b, rec, slot) <==>
               && Active(b, rec) == 1 && ToolBase(b, rec) == 0 && rec[0].ota_seq == rec[1].ota_seq
               && (rec[1].ota_seq == 0 ==> slot + 1 == AppCount(b.table)))
  {
    if InPlace(b, rec, slot) {
      ToolInPlace(b, rec, slot);
    }
  }

  lemma ToolInPlace(b: Board, rec: seq<Entry>, slot: nat)
    requires |rec| == 2 && Is32(rec) && slot < AppCount(b.table) && InPlace(b, rec, slot)
    ensures Agree(b, rec, slot) <==>
            && Active(b, rec) == 1 && ToolBase(b, rec) == 0 && rec[0].ota_seq == rec[1].ota_seq
            && (rec[1].ota_seq == 0 ==> slot + 1 == AppCount(b.table))
  {
    var n, a := AppCount(b.table), Active(b, rec);
    var s, other := rec[a].ota_seq, rec[1 - a].ota_seq;
    NextSeqLeast(other, slot, n);
    assert ToolBase(b, rec) != -1;
    if s >= 1 {
      SeqSelectsSlot(s, slot, n);
    }
    if other == s {
      SameSeq(s, slot, n);
    }
  }

  /** Counting from a number of the slot stays there. */
  lemma SameSeq(s: nat, slot: nat, n: nat)
    requires n > 0 && slot < n && (s >= 1 ==> s % n == (slot + 1) % n)
    ensures NextSeq(s, slot, n) == s <==> s >= 1 || slot + 1 == n
  {
    NextSeqLeast(s, slot, n);
    SmallMod(slot, n);
    SuccMod(slot, n);
  }

  /**
   What boots after the tool, on every record: the requested slot, exactly if the entry it wrote takes effect, that
   is, if the state it leaves in place is a good one, or the other entry selects that slot.
   */
  lemma ToolSelectsIff(b: Board, rec: seq<Entry>, slot: nat)
    requires |rec| == 2 && Is32(rec) && slot < AppCount(b.table)
    ensures var sec, s := ToolSector(b, rec), ToolSeq(b, rec, slot);
            Boot(b, Tooled(b, rec, slot)) == Slot(slot) <==>
            || (rec[sec].state != Invalid && rec[sec].state != Aborted && s != U32_MAX && (s >= 1 || SlotOf(0, AppCount(b.table)) == slot))
            || FallBack(b, rec[1 - sec]) == Slot(slot)
  {
    var n, base, sec, s := AppCount(b.table), ToolBase(b, rec), ToolSector(b, rec), ToolSeq(b, rec, slot);
    var rec1 := Tooled(b, rec, slot);
    FirstMissingIs(b.table.slots, 0);
    if base != -1 {
      NextSeqLeast(rec[base].ota_seq, slot, n);
    }
    if s >= 1 {
      SeqSelectsSlot(s, slot, n);
    }
    BootByActive(b, rec1);
    assert ToolValid(b, rec[1 - sec]) ==> base == 1 - sec;
  }

  /** After a rollback the tool can leave the bad state on the entry it writes: here the switch has no effect. */
  lemma ToolCanMiss(b: Board)
    requires b.table.slots == {0, 1}
    ensures var rec := [Entry(1, Invalid, b.crc(1)), Entry(2, Confirmed, b.crc(2))];
            && ToolSector(b, rec) == 0 && ToolSeq(b, rec, 0) == 3 && Boot(b, rec) == Slot(1)
            && Boot(b, rec[0 := Entry(3, Invalid, b.crc(3))]) == Slot(1)
  {
    var rec := [Entry(1, Invalid, b.crc(1)), Entry(2, Confirmed, b.crc(2))];
    assert FirstMissing(b.table.slots, 2) == 2;
    assert FirstMissing(b.table.slots, 1) == 2;
    assert AppCount(b.table) == 2;
  }
}
