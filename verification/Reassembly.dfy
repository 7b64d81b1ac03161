/** DTLS handshake reassembly and buffering, on values: what each operation of the
    receiver does to the four slots and to the byte budget, and why the handshake
    layer still sees the sender's messages. Sections 4.2.2, 4.2.3 and 4.2.6 of
    RFC 6347. */
module Reassembly {
  import opened Bytes
  import opened Bitmask

  const SLOTS: nat := 4
  const HDR: nat := 12

  // ---------- The 12-byte handshake header: type, length, seq, frag_off, frag_len

  function TotalLen(s: bytes): nat
    requires |s| >= HDR
  {
    U24At(s, 1)
  }

  function MsgSeq(s: bytes): nat
    requires |s| >= HDR
  {
    U16At(s, 4)
  }

  function FragOff(s: bytes): nat
    requires |s| >= HDR
  {
    U24At(s, 6)
  }

  function FragLen(s: bytes): nat
    requires |s| >= HDR
  {
    U24At(s, 9)
  }

  predicate HeaderOk(s: bytes)
    requires |s| >= HDR
  {
    FragOff(s) <= TotalLen(s) && FragLen(s) <= TotalLen(s) - FragOff(s) && FragLen(s) + HDR <= |s|
  }

  predicate IsFragment(s: bytes)
    requires |s| >= HDR
  {
    |s| < HDR + TotalLen(s) || s[6..9] != [0, 0, 0] || s[9..12] != s[1..4]
  }

  // ---------- Slots

  datatype Slot =
    | Empty
    | Slot(header: bytes, body: bytes, have: seq<bool>, fragmented: bool, complete: bool)

  predicate AllHave(have: seq<bool>)
  {
    forall j :: 0 <= j < |have| ==> have[j]
  }

  predicate SlotOk(slot: Slot, content: nat)
  {
    slot.Slot? ==>
      && |slot.header| == HDR && |slot.body| == U24At(slot.header, 1) == |slot.have|
      && HDR + |slot.body| <= content
      && (slot.complete <==> AllHave(slot.have))
      && (slot.fragmented || slot.complete)
  }

  function BufferSize(len: nat, fragmented: bool): nat
  {
    HDR + len + if fragmented then MaskBytes(len) else 0
  }

  function SlotSize(slot: Slot): nat
  {
    if slot.Empty? then 0 else BufferSize(|slot.body|, slot.fragmented)
  }

  function FreshSlot(s: bytes): Slot
    requires |s| >= HDR
  {
    Slot(s[..6] + [0, 0, 0] + s[1..4], Zeros(TotalLen(s)), seq(TotalLen(s), _ => false), IsFragment(s), false)
  }

  function AddRange(have: seq<bool>, off: nat, len: nat): (r: seq<bool>)
    ensures |r| == |have|
    ensures forall j :: 0 <= j < |have| ==> r[j] == (have[j] || off <= j < off + len)
  {
    seq(|have|, j requires 0 <= j < |have| => have[j] || off <= j < off + len)
  }

  function Accept(slot: Slot, s: bytes): Slot
    requires slot.Slot? && |s| >= HDR && HeaderOk(s) && |slot.body| == |slot.have| == TotalLen(s)
  {
    var off, len := FragOff(s), FragLen(s);
    var have := AddRange(slot.have, off, len);
    slot.(body := slot.body[..off] + s[HDR..HDR + len] + slot.body[off + len..],
          have := have,
          complete := if slot.fragmented then AllHave(have) else true)
  }

  lemma AcceptOk(slot: Slot, s: bytes, content: nat)
    requires slot.Slot? && |s| >= HDR && HeaderOk(s) && |slot.header| == HDR
    requires |slot.body| == |slot.have| == TotalLen(s) == U24At(slot.header, 1)
    requires HDR + TotalLen(s) <= content
    requires !slot.fragmented ==> !IsFragment(s)
    ensures SlotOk(Accept(slot, s), content)
  {
    if !slot.fragmented {
      assert FragOff(s) == 0 && FragLen(s) == TotalLen(s);
    }
  }

  // ---------- The four slots, the future record and the budget

  datatype Kind = Handshake | ChangeCipherSpec | Alert | ApplicationData

  /** A record of the datagram transport: its epoch and kind, the bytes of its content once
      decrypted, the size it has on the wire, whether its header is valid, with something
      behind it, or cut off by the end of the datagram, and whether it authenticates. */
  datatype Record = Record(epoch: nat, kind: Kind, content: bytes, size: nat, header: Header, authentic: bool)

  datatype Header = WellFormed | Malformed | Cut

  /** MBEDTLS_SSL_IN_CONTENT_LEN and MBEDTLS_SSL_DTLS_MAX_BUFFERING */
  datatype Limits = Limits(content: nat, buffering: nat)

  const DefaultLimits := Limits(16384, 32768)

  datatype Buffers = Buffers(slots: seq<Slot>, future: Option<Record>, limits: Limits)

  function SlotsSize(slots: seq<Slot>): nat
  {
    if slots == [] then 0 else SlotSize(slots[0]) + SlotsSize(slots[1..])
  }

  function FutureSize(b: Buffers): nat
  {
    if b.future.Some? then b.future.value.size else 0
  }

  function Total(b: Buffers): nat
  {
    SlotsSize(b.slots) + FutureSize(b)
  }

  predicate Ok(b: Buffers)
  {
    && |b.slots| == SLOTS && Total(b) <= b.limits.buffering
    && forall i :: 0 <= i < SLOTS ==> SlotOk(b.slots[i], b.limits.content)
  }

  predicate Fits(b: Buffers, desired: nat)
  {
    desired + Total(b) <= b.limits.buffering
  }

  lemma {:induction false} SlotsSizeUpdate(slots: seq<Slot>, k: nat, slot: Slot)
    requires k < |slots|
    ensures SlotsSize(slots[k := slot]) == SlotsSize(slots) - SlotSize(slots[k]) + SlotSize(slot)
    ensures SlotSize(slots[k]) <= SlotsSize(slots)
  {
    if k == 0 {
      assert slots[k := slot][1..] == slots[1..];
    } else {
      assert slots[k := slot][1..] == slots[1..][k - 1 := slot];
      SlotsSizeUpdate(slots[1..], k - 1, slot);
    }
  }

  lemma {:induction false} SlotsSizeAppendEmpty(slots: seq<Slot>)
    ensures SlotsSize(slots + [Empty]) == SlotsSize(slots)
  {
    if slots != [] {
      assert (slots + [Empty])[1..] == slots[1..] + [Empty];
      SlotsSizeAppendEmpty(slots[1..]);
    }
  }

  lemma {:induction false} SlotsSizeZero(slots: seq<Slot>)
    requires forall i :: 0 <= i < |slots| ==> slots[i].Empty?
    ensures SlotsSize(slots) == 0
  {
    if slots != [] {
      SlotsSizeZero(slots[1..]);
    }
  }

  /** The bytes of memory for a message: header and body, and one bit for each byte of the
      body if it comes in fragments. */
  function Memory(len: nat, fragmented: bool): nat
  {
    12 + len + if fragmented then (len + 7) / 8 else 0
  }

  function MemoryOf(slot: Slot): nat
  {
    if slot.Empty? then 0 else Memory(|slot.body|, slot.fragmented)
  }

  /** The bytes held in all. */
  function Held(b: Buffers): nat
    requires |b.slots| == SLOTS
  {
    MemoryOf(b.slots[0]) + MemoryOf(b.slots[1]) + MemoryOf(b.slots[2]) + MemoryOf(b.slots[3])
      + match b.future case None => 0 case Some(rec) => rec.size
  }

  lemma SizeIsMemory(len: nat, fragmented: bool)
    ensures BufferSize(len, fragmented) == Memory(len, fragmented)
  {
  }

  lemma SlotIsMemory(slot: Slot)
    ensures SlotSize(slot) == MemoryOf(slot)
  {
  }

  lemma FirstSize(slots: seq<Slot>, i: nat)
    requires i < |slots|
    ensures SlotsSize(slots[i..]) == MemoryOf(slots[i]) + SlotsSize(slots[i + 1..])
  {
    SlotIsMemory(slots[i]);
    assert slots[i..][1..] == slots[i + 1..];
  }

  /** The counter the limit is compared with is the memory that is held. */
  lemma TotalIsHeld(b: Buffers)
    requires |b.slots| == SLOTS
    ensures Total(b) == Held(b)
  {
    hide SlotsSize, MemoryOf;
    FirstSize(b.slots, 0);
    FirstSize(b.slots, 1);
    FirstSize(b.slots, 2);
    FirstSize(b.slots, 3);
    assert b.slots[0..] == b.slots && b.slots[4..] == [];
    SlotsSizeZero([]);
  }

  // ---------- Eviction

  /** Free slot n - 1, then n - 2, ... until `desired` bytes fit. */
  function EvictSlots(b: Buffers, n: nat, desired: nat): (r: (Buffers, bool))
    requires n <= |b.slots|
    ensures |r.0.slots| == |b.slots|
    decreases n
  {
    if n == 0 then (b, false)
    else
      var b' := b.(slots := b.slots[n - 1 := Empty]);
      if Fits(b', desired) then (b', true) else EvictSlots(b', n - 1, desired)
  }

  function MakeSpace(b: Buffers, desired: nat): (Buffers, bool)
    requires |b.slots| == SLOTS
  {
    var b' := b.(future := None);
    if Fits(b', desired) then (b', true) else EvictSlots(b', SLOTS, desired)
  }

  /** What is left when the slots from k on are gone. */
  function KeepBelow(slots: seq<Slot>, k: nat): (r: seq<Slot>)
    ensures |r| == |slots|
    ensures forall i :: 0 <= i < |slots| ==> r[i] == if i < k then slots[i] else Empty
  {
    seq(|slots|, i requires 0 <= i < |slots| => if i < k then slots[i] else Empty)
  }

  lemma {:induction false} EvictSlotsFarthestFirst(b: Buffers, n: nat, desired: nat)
    requires n <= |b.slots| && !Fits(b, desired)
    requires forall i :: n <= i < |b.slots| ==> b.slots[i].Empty?
    ensures var (r, ok) := EvictSlots(b, n, desired);
      && r.future == b.future && r.limits == b.limits
      && (ok <==> Fits(r, desired))
      && (ok ==> exists k: nat ::
            && k < n && r.slots == KeepBelow(b.slots, k)
            && !Fits(b.(slots := KeepBelow(b.slots, k + 1)), desired))
      && (!ok ==> r.slots == KeepBelow(b.slots, 0))
    decreases n
  {
    if n == 0 {
      assert b.slots == KeepBelow(b.slots, 0);
    } else {
      var b' := b.(slots := b.slots[n - 1 := Empty]);
      assert b.slots == KeepBelow(b.slots, n);
      assert b'.slots == KeepBelow(b.slots, n - 1);
      if !Fits(b', desired) {
        EvictSlotsFarthestFirst(b', n - 1, desired);
        var (r, ok) := EvictSlots(b', n - 1, desired);
        assert KeepBelow(b'.slots, 0) == KeepBelow(b.slots, 0);
        if ok {
          var k: nat :| k < n - 1 && r.slots == KeepBelow(b'.slots, k) &&
            !Fits(b'.(slots := KeepBelow(b'.slots, k + 1)), desired);
          assert KeepBelow(b'.slots, k) == KeepBelow(b.slots, k);
          assert KeepBelow(b'.slots, k + 1) == KeepBelow(b.slots, k + 1);
        }
      }
    }
  }

  /** Space is made by dropping the future record first and then the most distant
      slots, never one more than needed; it is refused only to a message that would
      not fit into the whole empty budget. */
  lemma MakeSpaceMinimal(b: Buffers, desired: nat)
    requires |b.slots| == SLOTS
    ensures var (r, ok) := MakeSpace(b, desired);
      && (ok <==> desired <= b.limits.buffering)
      && (ok ==> Fits(r, desired))
      && r.future == None && r.limits == b.limits
      && exists k: nat :: k <= SLOTS && r.slots == KeepBelow(b.slots, k)
           && (k < SLOTS ==> !Fits(Buffers(KeepBelow(b.slots, k + 1), None, b.limits), desired))
  {
    var b' := b.(future := None);
    assert b.slots == KeepBelow(b.slots, SLOTS);
    SlotsSizeZero(KeepBelow(b.slots, 0));
    if !Fits(b', desired) {
      EvictSlotsFarthestFirst(b', SLOTS, desired);
      var (r, ok) := MakeSpace(b, desired);
      if ok {
        var k: nat :| k < SLOTS && r.slots == KeepBelow(b'.slots, k) &&
          !Fits(b'.(slots := KeepBelow(b'.slots, k + 1)), desired);
        assert b'.(slots := KeepBelow(b'.slots, k + 1)) == Buffers(KeepBelow(b.slots, k + 1), None, b.limits);
      } else {
        assert r == Buffers(KeepBelow(b.slots, 0), None, b.limits);
        assert !Fits(Buffers(KeepBelow(b.slots, 0 + 1), None, b.limits), desired);
      }
    }
  }

  // ---------- Buffering one received fragment (or one early message)

  datatype Ret = RetOk | RetInternalError | RetTooSmall

  function BufferFragment(b: Buffers, next: nat, s: bytes): (Buffers, Ret)
    requires Ok(b) && |s| >= HDR && HeaderOk(s)
  {
    if MsgSeq(s) < next then (b, RetInternalError)
    else if MsgSeq(s) - next >= SLOTS then (b, RetOk)
    else if b.slots[MsgSeq(s) - next].Empty? then StartSlot(b, MsgSeq(s) - next, s)
    else ContinueSlot(b, MsgSeq(s) - next, s)
  }

  function StartSlot(b: Buffers, k: nat, s: bytes): (Buffers, Ret)
    requires |b.slots| == SLOTS && k < SLOTS && |s| >= HDR && HeaderOk(s)
  {
    if HDR + TotalLen(s) > b.limits.content then (b, RetOk)
    else
      match Reserve(b, k, BufferSize(TotalLen(s), IsFragment(s)))
      case (b', Some(ret)) => (b', ret)
      case (b', None) => (Store(b', k, Accept(FreshSlot(s), s)), RetOk)
  }

  /** Make sure that `need` bytes fit, or say with which result to give up. Only the
      next expected message may evict others. */
  function Reserve(b: Buffers, k: nat, need: nat): (r: (Buffers, Option<Ret>))
    requires |b.slots| == SLOTS && k < SLOTS
    ensures |r.0.slots| == SLOTS
  {
    if Fits(b, need) then (b, None)
    else if k > 0 then (b, Some(RetOk))
    else
      var (b', ok) := MakeSpace(b, need);
      (b', if ok then None else Some(RetTooSmall))
  }

  function ContinueSlot(b: Buffers, k: nat, s: bytes): (Buffers, Ret)
    requires |b.slots| == SLOTS && k < SLOTS && b.slots[k].Slot? && |s| >= HDR && HeaderOk(s)
    requires SlotOk(b.slots[k], b.limits.content)
  {
    if b.slots[k].header[..4] != s[..4] || b.slots[k].complete then (b, RetOk)
    else
      SameLength(b.slots[k].header, s);
      (Store(b, k, Accept(b.slots[k], s)), RetOk)
  }

  function Store(b: Buffers, k: nat, slot: Slot): Buffers
    requires k < |b.slots|
  {
    b.(slots := b.slots[k := slot])
  }

  /** The next message, if it is completely buffered. */
  function Loadable(b: Buffers): Option<bytes>
    requires |b.slots| == SLOTS
  {
    if b.slots[0].Slot? && b.slots[0].complete then Some(b.slots[0].header + b.slots[0].body) else None
  }

  /** The slots move down by one when a message has been handed up. */
  function Advance(b: Buffers): Buffers
    requires |b.slots| == SLOTS
  {
    b.(slots := b.slots[1..] + [Empty])
  }

  lemma StoreFits(b: Buffers, k: nat, slot: Slot)
    requires |b.slots| == SLOTS && k < SLOTS && (b.slots[k].Empty? || SlotSize(b.slots[k]) == SlotSize(slot))
    ensures Total(Store(b, k, slot)) == Total(b) + if b.slots[k].Empty? then SlotSize(slot) else 0
  {
    SlotsSizeUpdate(b.slots, k, slot);
  }

  lemma NewSlotOk(b: Buffers, k: nat, s: bytes)
    requires Ok(b) && k < SLOTS && b.slots[k].Empty? && |s| >= HDR && HeaderOk(s)
    requires HDR + TotalLen(s) <= b.limits.content && Fits(b, BufferSize(TotalLen(s), IsFragment(s)))
    ensures Ok(Store(b, k, Accept(FreshSlot(s), s)))
  {
    FreshHeaderLen(s);
    AcceptOk(FreshSlot(s), s, b.limits.content);
    StoreFits(b, k, Accept(FreshSlot(s), s));
  }

  lemma ReserveOk(b: Buffers, k: nat, need: nat)
    requires Ok(b) && k < SLOTS && b.slots[k].Empty?
    ensures var (b', ret) := Reserve(b, k, need);
      Ok(b') && b'.slots[k].Empty? && (ret == None ==> Fits(b', need))
  {
    MakeSpaceMinimal(b, need);
    MakeSpaceOk(b, need);
  }

  lemma StartSlotOk(b: Buffers, k: nat, s: bytes)
    requires Ok(b) && k < SLOTS && b.slots[k].Empty? && |s| >= HDR && HeaderOk(s)
    ensures Ok(StartSlot(b, k, s).0)
  {
    hide Ok, Fits, Store;
    ReserveOk(b, k, BufferSize(TotalLen(s), IsFragment(s)));
    var (b', ret) := Reserve(b, k, BufferSize(TotalLen(s), IsFragment(s)));
    ReserveKeepsLimits(b, k, BufferSize(TotalLen(s), IsFragment(s)));
    if HDR + TotalLen(s) <= b.limits.content && ret == None {
      NewSlotOk(b', k, s);
    }
  }

  lemma ReserveKeepsLimits(b: Buffers, k: nat, need: nat)
    requires |b.slots| == SLOTS && k < SLOTS
    ensures Reserve(b, k, need).0.limits == b.limits
  {
    MakeSpaceMinimal(b, need);
  }

  lemma ContinueSlotOk(b: Buffers, k: nat, s: bytes)
    requires Ok(b) && k < SLOTS && b.slots[k].Slot? && |s| >= HDR && HeaderOk(s)
    ensures Ok(ContinueSlot(b, k, s).0)
  {
    if b.slots[k].header[..4] == s[..4] && !b.slots[k].complete {
      SameLength(b.slots[k].header, s);
      AcceptOk(b.slots[k], s, b.limits.content);
      StoreFits(b, k, Accept(b.slots[k], s));
    }
  }

  /** The budget: whatever arrives, the bytes held never exceed the limit. */
  lemma BufferFragmentOk(b: Buffers, next: nat, s: bytes)
    requires Ok(b) && |s| >= HDR && HeaderOk(s)
    ensures Ok(BufferFragment(b, next, s).0)
  {
    if next <= MsgSeq(s) < next + SLOTS {
      var k := MsgSeq(s) - next;
      if b.slots[k].Empty? {
        StartSlotOk(b, k, s);
      } else {
        ContinueSlotOk(b, k, s);
      }
    }
  }

  lemma FreshHeaderLen(s: bytes)
    requires |s| >= HDR
    ensures |FreshSlot(s).header| == HDR && U24At(FreshSlot(s).header, 1) == TotalLen(s)
  {
  }

  lemma SameLength(header: bytes, s: bytes)
    requires |header| == HDR && |s| >= HDR && header[..4] == s[..4]
    ensures U24At(header, 1) == TotalLen(s)
  {
    assert forall i :: 0 <= i < 4 ==> header[i] == header[..4][i] && s[i] == s[..4][i];
  }

  lemma MakeSpaceOk(b: Buffers, desired: nat)
    requires Ok(b)
    ensures Ok(MakeSpace(b, desired).0)
    ensures b.slots[0].Empty? ==> MakeSpace(b, desired).0.slots[0].Empty?
  {
    MakeSpaceMinimal(b, desired);
    var (r, ok) := MakeSpace(b, desired);
    var k: nat :| k <= SLOTS && r.slots == KeepBelow(b.slots, k);
    KeepBelowSize(b.slots, k);
  }

  lemma {:induction false} KeepBelowSize(slots: seq<Slot>, k: nat)
    ensures SlotsSize(KeepBelow(slots, k)) <= SlotsSize(slots)
  {
    if slots != [] {
      assert KeepBelow(slots, k)[1..] == KeepBelow(slots[1..], if k == 0 then 0 else k - 1);
      KeepBelowSize(slots[1..], if k == 0 then 0 else k - 1);
    }
  }

  /** A record of the next epoch is kept if it is a handshake record, if it is the
      only one and if it fits. */
  function KeepFuture(b: Buffers, rec: Record): Buffers
  {
    if rec.kind == Handshake && b.future.None? && Fits(b, rec.size) then b.(future := Some(rec)) else b
  }

  /** The header as if the message had not been fragmented. */
  predicate Unfragmented(header: bytes)
  {
    |header| == HDR && header[6..9] == [0, 0, 0] && header[9..12] == header[1..4]
  }

  /** Slot k holds the message that comes k after the next one, with its final header. */
  predicate Numbered(b: Buffers, next: nat)
  {
    forall k :: 0 <= k < |b.slots| && b.slots[k].Slot? ==>
      Unfragmented(b.slots[k].header) && MsgSeq(b.slots[k].header) == next + k
  }

  lemma ReserveNumbered(b: Buffers, next: nat, k: nat, need: nat)
    requires Ok(b) && Numbered(b, next) && k < SLOTS
    ensures Numbered(Reserve(b, k, need).0, next) && |Reserve(b, k, need).0.slots| == SLOTS
  {
    MakeSpaceMinimal(b, need);
    var r := MakeSpace(b, need).0;
    var n: nat :| n <= SLOTS && r.slots == KeepBelow(b.slots, n);
  }

  lemma FreshNumber(s: bytes)
    requires |s| >= HDR
    ensures Unfragmented(FreshSlot(s).header) && MsgSeq(FreshSlot(s).header) == MsgSeq(s)
  {
    var h := FreshSlot(s).header;
    assert h[..6] == s[..6] && h[6..9] == [0, 0, 0] && h[9..12] == s[1..4] == h[..6][1..4];
    assert h[4] == h[..6][4] && h[5] == h[..6][5];
  }

  /** So it stays, whatever arrives and whatever is evicted ... */
  lemma BufferFragmentNumbered(b: Buffers, next: nat, s: bytes)
    requires Ok(b) && Numbered(b, next) && |s| >= HDR && HeaderOk(s)
    ensures Numbered(BufferFragment(b, next, s).0, next)
  {
    if next <= MsgSeq(s) < next + SLOTS {
      ReserveNumbered(b, next, MsgSeq(s) - next, BufferSize(TotalLen(s), IsFragment(s)));
      FreshNumber(s);
      hide Reserve, FreshSlot, MsgSeq, Ok, Unfragmented;
    }
  }

  /** ... and when the next message has been handed up. */
  lemma AdvanceNumbered(b: Buffers, next: nat)
    requires |b.slots| == SLOTS && Numbered(b, next)
    ensures Numbered(Advance(b), next + 1)
  {
    assert forall k :: 0 <= k < SLOTS - 1 ==> Advance(b).slots[k] == b.slots[k + 1];
  }

  lemma FreeOk(b: Buffers, k: nat)
    requires Ok(b) && k < SLOTS
    ensures Ok(Store(b, k, Empty)) && Total(Store(b, k, Empty)) == Total(b) - SlotSize(b.slots[k])
    ensures SlotSize(b.slots[k]) <= Total(b)
  {
    SlotsSizeUpdate(b.slots, k, Empty);
  }

  lemma AdvanceOk(b: Buffers)
    requires Ok(b)
    ensures Ok(Advance(b)) && Total(Advance(b)) == Total(b) - SlotSize(b.slots[0])
  {
    SlotsSizeAppendEmpty(b.slots[1..]);
  }

  /** The next expected message is refused for lack of space exactly when it alone
      would exceed the limit. */
  lemma NextMessageRefusedOnlyIfTooLarge(b: Buffers, next: nat, s: bytes)
    requires Ok(b) && |s| >= HDR && HeaderOk(s)
    ensures BufferFragment(b, next, s).1 == RetTooSmall <==>
      && MsgSeq(s) == next && b.slots[0].Empty? && HDR + TotalLen(s) <= b.limits.content
      && Memory(TotalLen(s), IsFragment(s)) > b.limits.buffering
  {
    SizeIsMemory(TotalLen(s), IsFragment(s));
    MakeSpaceMinimal(b, BufferSize(TotalLen(s), IsFragment(s)));
  }

  /** No error is ever returned but for a message from the past or for lack of space; and
      no fragment brings in a future record. */
  lemma BufferFragmentErrors(b: Buffers, next: nat, s: bytes)
    requires Ok(b) && |s| >= HDR && HeaderOk(s)
    ensures BufferFragment(b, next, s).1 == RetInternalError <==> MsgSeq(s) < next
    ensures FutureSize(BufferFragment(b, next, s).0) <= FutureSize(b)
    ensures BufferFragment(b, next, s).0.future.Some? ==> BufferFragment(b, next, s).0.future == b.future
    ensures BufferFragment(b, next, s).0.limits == b.limits
  {
    MakeSpaceMinimal(b, BufferSize(TotalLen(s), IsFragment(s)));
  }

  /** There is space for the longest message that is accepted, with its bitmap. */
  predicate Ample(l: Limits)
  {
    l.content < HDR || Memory(Min(l.content - HDR, 0xff_ffff), true) <= l.buffering
  }

  /** The limits are such that the next message can be refused for lack of space if and
      only if they are not ample; the default ones are. */
  lemma RefusesIffNotAmple(l: Limits)
    ensures (exists b, next, s ::
        Ok(b) && b.limits == l && |s| >= HDR && HeaderOk(s) && BufferFragment(b, next, s).1 == RetTooSmall) <==>
          !Ample(l)
    ensures Ample(DefaultLimits)
  {
    if !Ample(l) {
      var b := Buffers([Empty, Empty, Empty, Empty], None, l);
      var s := [1] + PutU24(Min(l.content - HDR, 0xff_ffff)) + Zeros(8);
      SlotsSizeZero(b.slots);
      U24RoundTrip(Min(l.content - HDR, 0xff_ffff));
      assert U24At(s, 1) == U24At(s[1..4], 0) && s[1..4] == PutU24(Min(l.content - HDR, 0xff_ffff));
      assert s[4] == 0 && s[5] == 0 && s[6..9] == [0, 0, 0] && s[9..12] == [0, 0, 0];
      NextMessageRefusedOnlyIfTooLarge(b, 0, s);
    } else {
      forall b, next, s | Ok(b) && b.limits == l && |s| >= HDR && HeaderOk(s)
        ensures BufferFragment(b, next, s).1 != RetTooSmall
      {
        NextMessageRefusedOnlyIfTooLarge(b, next, s);
      }
    }
  }

  // ---------- The sender's messages and their fragments

  datatype Message = Message(msgType: byte, body: bytes)

  predicate Sendable(M: seq<Message>)
  {
    |M| <= 0x1_0000 && forall i :: 0 <= i < |M| ==> |M[i].body| < 0x100_0000
  }

  /** The header every message enters the transcript with: as if not fragmented. */
  function CanonHeader(m: Message, i: nat): (h: bytes)
    ensures |h| == HDR
  {
    [m.msgType] + PutU24(|m.body|) + PutU16(i) + [0, 0, 0] + PutU24(|m.body|)
  }

  function Canon(m: Message, i: nat): bytes
  {
    CanonHeader(m, i) + m.body
  }

  /** s starts with a fragment of one of the messages. */
  predicate IsSlice(s: bytes, M: seq<Message>)
  {
    && |s| >= HDR && HeaderOk(s) && MsgSeq(s) < |M|
    && var m := M[MsgSeq(s)];
       s[0] == m.msgType && TotalLen(s) == |m.body|
       && s[HDR..HDR + FragLen(s)] == m.body[FragOff(s)..FragOff(s) + FragLen(s)]
  }

  predicate SlotFaithful(slot: Slot, m: Message, i: nat)
  {
    slot.Slot? ==>
      && slot.header == CanonHeader(m, i) && |slot.body| == |m.body| == |slot.have|
      && forall j :: 0 <= j < |m.body| && slot.have[j] ==> slot.body[j] == m.body[j]
  }

  predicate Faithful(b: Buffers, M: seq<Message>, next: nat)
  {
    forall k :: 0 <= k < |b.slots| && b.slots[k].Slot? ==>
      next + k < |M| && SlotFaithful(b.slots[k], M[next + k], next + k)
  }

  lemma SlicePrefix(s: bytes, M: seq<Message>)
    requires IsSlice(s, M) && Sendable(M)
    ensures s[..6] + [0, 0, 0] + s[1..4] == CanonHeader(M[MsgSeq(s)], MsgSeq(s))
  {
    PutU24At(s, 1);
    PutU16At(s, 4);
    assert s[..6] == [s[0]] + s[1..4] + s[4..6];
  }

  lemma AcceptFaithful(slot: Slot, s: bytes, M: seq<Message>)
    requires IsSlice(s, M) && slot.Slot? && SlotFaithful(slot, M[MsgSeq(s)], MsgSeq(s))
    ensures SlotFaithful(Accept(slot, s), M[MsgSeq(s)], MsgSeq(s))
  {
    var m, off, len := M[MsgSeq(s)], FragOff(s), FragLen(s);
    var r := Accept(slot, s);
    forall j | 0 <= j < |m.body| && r.have[j]
      ensures r.body[j] == m.body[j]
    {
      if off <= j < off + len {
        assert s[HDR..HDR + len][j - off] == m.body[off..off + len][j - off];
      }
    }
  }

  lemma FreshFaithful(s: bytes, M: seq<Message>)
    requires IsSlice(s, M) && Sendable(M)
    ensures SlotFaithful(Accept(FreshSlot(s), s), M[MsgSeq(s)], MsgSeq(s))
  {
    SlicePrefix(s, M);
    AcceptFaithful(FreshSlot(s), s, M);
  }

  lemma ReserveFaithful(b: Buffers, M: seq<Message>, next: nat, k: nat, desired: nat)
    requires Ok(b) && Faithful(b, M, next) && k < SLOTS
    ensures Faithful(Reserve(b, k, desired).0, M, next)
  {
    MakeSpaceMinimal(b, desired);
    var (r, ok) := MakeSpace(b, desired);
    var n: nat :| n <= SLOTS && r.slots == KeepBelow(b.slots, n);
  }

  lemma StoreFaithful(b: Buffers, M: seq<Message>, next: nat, k: nat, slot: Slot)
    requires Faithful(b, M, next) && k < |b.slots| && next + k < |M| && SlotFaithful(slot, M[next + k], next + k)
    ensures Faithful(Store(b, k, slot), M, next)
  {
  }

  /** Any fragment of the sender's messages leaves every slot a partial copy of its message. */
  lemma BufferFragmentFaithful(b: Buffers, M: seq<Message>, next: nat, s: bytes)
    requires Ok(b) && Faithful(b, M, next) && IsSlice(s, M) && Sendable(M)
    ensures Faithful(BufferFragment(b, next, s).0, M, next)
  {
    if next <= MsgSeq(s) < next + SLOTS {
      var k := MsgSeq(s) - next;
      if b.slots[k].Empty? {
        var b' := Reserve(b, k, BufferSize(TotalLen(s), IsFragment(s))).0;
        FreshFaithful(s, M);
        ReserveFaithful(b, M, next, k, BufferSize(TotalLen(s), IsFragment(s)));
        StoreFaithful(b', M, next, k, Accept(FreshSlot(s), s));
      } else if b.slots[k].header[..4] == s[..4] && !b.slots[k].complete {
        AcceptFaithful(b.slots[k], s, M);
        StoreFaithful(b, M, next, k, Accept(b.slots[k], s));
      }
    }
  }

  // ---------- A fragmented message is complete when its fragments cover it

  predicate Covered(ss: seq<bytes>, j: nat)
    requires forall s :: s in ss ==> |s| >= HDR
  {
    exists i :: 0 <= i < |ss| && FragOff(ss[i]) <= j < FragOff(ss[i]) + FragLen(ss[i])
  }

  predicate AllForSlot(slot: Slot, ss: seq<bytes>)
  {
    slot.Slot? && |slot.body| == |slot.have| && forall s :: s in ss ==>
      |s| >= HDR && HeaderOk(s) && TotalLen(s) == |slot.body|
  }

  /** The fragments ss arrive one after the other; a complete slot takes no more. */
  function Gather(slot: Slot, ss: seq<bytes>): (r: Slot)
    requires AllForSlot(slot, ss)
    ensures r.Slot?
    decreases |ss|
  {
    if ss == [] then slot
    else Gather(if slot.complete then slot else Accept(slot, ss[0]), ss[1..])
  }

  lemma CoveredStep(ss: seq<bytes>, j: nat)
    requires ss != [] && forall s :: s in ss ==> |s| >= HDR
    ensures Covered(ss, j) == (FragOff(ss[0]) <= j < FragOff(ss[0]) + FragLen(ss[0]) || Covered(ss[1..], j))
  {
    if Covered(ss, j) {
      var i :| 0 <= i < |ss| && FragOff(ss[i]) <= j < FragOff(ss[i]) + FragLen(ss[i]);
      assert i > 0 ==> ss[1..][i - 1] == ss[i];
    }
    if Covered(ss[1..], j) {
      var i :| 0 <= i < |ss[1..]| && FragOff(ss[1..][i]) <= j < FragOff(ss[1..][i]) + FragLen(ss[1..][i]);
      assert ss[i + 1] == ss[1..][i];
    }
  }

  lemma {:induction false} CompleteIffCovered(slot: Slot, ss: seq<bytes>)
    requires AllForSlot(slot, ss) && slot.fragmented && (slot.complete <==> AllHave(slot.have))
    ensures Gather(slot, ss).complete <==> forall j: nat :: j < |slot.have| ==> slot.have[j] || Covered(ss, j)
    decreases |ss|
  {
    if ss != [] {
      forall j: nat
        ensures Covered(ss, j) == (FragOff(ss[0]) <= j < FragOff(ss[0]) + FragLen(ss[0]) || Covered(ss[1..], j))
      {
        CoveredStep(ss, j);
      }
      CompleteIffCovered(if slot.complete then slot else Accept(slot, ss[0]), ss[1..]);
    }
  }

  /** What is loaded from the buffer is the next message, byte for byte. */
  lemma LoadableIsCanon(b: Buffers, M: seq<Message>, next: nat)
    requires Ok(b) && Faithful(b, M, next) && Loadable(b).Some?
    ensures next < |M| && Loadable(b).value == Canon(M[next], next)
  {
    assert b.slots[0].body == M[next].body;
  }

  /** So is a message that arrives whole. */
  lemma WholeIsCanon(s: bytes, M: seq<Message>)
    requires IsSlice(s, M) && Sendable(M) && !IsFragment(s)
    ensures s[..HDR + TotalLen(s)] == Canon(M[MsgSeq(s)], MsgSeq(s))
  {
    SlicePrefix(s, M);
    assert FragOff(s) == 0 && FragLen(s) == TotalLen(s);
    assert s[..HDR] == s[..6] + s[6..9] + s[9..12];
    assert s[..HDR + TotalLen(s)] == s[..HDR] + s[HDR..HDR + TotalLen(s)];
  }

  lemma AdvanceFaithful(b: Buffers, M: seq<Message>, next: nat)
    requires |b.slots| == SLOTS && Faithful(b, M, next)
    ensures Faithful(Advance(b), M, next + 1)
  {
    forall k | 0 <= k < SLOTS && Advance(b).slots[k].Slot?
      ensures next + 1 + k < |M| && SlotFaithful(Advance(b).slots[k], M[next + 1 + k], next + 1 + k)
    {
      assert Advance(b).slots[k] == b.slots[k + 1];
    }
  }

  lemma CanonIsSlice(M: seq<Message>, i: nat)
    requires Sendable(M) && i < |M|
    ensures var s := Canon(M[i], i); IsSlice(s, M) && MsgSeq(s) == i && !IsFragment(s) && HDR + TotalLen(s) == |s|
  {
    var s, len := Canon(M[i], i), |M[i].body|;
    U24RoundTrip(len);
    U16RoundTrip(i);
    assert s[1..4] == PutU24(len) == s[9..12] && s[4..6] == PutU16(i) && s[6..9] == [0, 0, 0];
    assert forall k :: 0 <= k < 3 ==> s[1 + k] == s[1..4][k] && s[9 + k] == s[9..12][k] && s[6 + k] == s[6..9][k];
    assert forall k :: 0 <= k < 2 ==> s[4 + k] == s[4..6][k];
  }
}
