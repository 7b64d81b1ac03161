/** What arrives early is not lost: records of the next epoch, fragments of messages to
    come, and a ChangeCipherSpec; and what each kind of record ends in. */
module DtlsEarly {
  import opened Bytes
  import opened Reassembly
  import opened DtlsReading
  import opened DtlsDelivery
  import opened DtlsProgress

  // ---------- When room is made

  /** The fragment s of the next message does not fit, so that others have to go. */
  predicate NeedsRoom(b: Buffers, next: nat, s: bytes)
    requires Ok(b) && |s| >= HDR && HeaderOk(s)
  {
    && MsgSeq(s) == next && b.slots[0].Empty? && HDR + TotalLen(s) <= b.limits.content
    && !Fits(b, BufferSize(TotalLen(s), IsFragment(s)))
  }

  predicate MakesRoom(r: Receiver)
    requires Ok(r.b)
  {
    && r.kind == Handshake && |r.content| >= HDR && HeaderOk(r.content)
    && Judge(r.content, r.next) == Early && NeedsRoom(r.b, r.next, r.content)
  }

  predicate TurnMakesRoom(r: Receiver)
    requires ReceiverOk(r)
  {
    ObtainOk(r);
    Obtain(r).1 == Done && MakesRoom(Obtain(r).0)
  }

  /** In the course of the read room is made for the next message. */
  predicate ReadMakesRoom(r: Receiver)
    requires ReceiverOk(r)
    decreases |r.wire|, Backlog(r), Left(r)
  {
    TurnOk(r);
    TurnMakesRoom(r) || (Turn(r).1 == Continue && (TurnGoesOn(r); ReadMakesRoom(Turn(r).0)))
  }

  // ---------- A record of the next epoch

  lemma HandleHoldsRecord(r: Receiver)
    requires ReceiverOk(r) && !MakesRoom(r)
    ensures Handle(r).0.b.future == r.b.future
  {
    hide Accept, FreshSlot, MakeSpace, Fits, HeaderOk, IsFragment, Ok;
    if r.kind == Handshake && |r.content| >= HDR && HeaderOk(r.content) && Judge(r.content, r.next) == Early {
      BufferHoldsRecord(r.b, r.next, r.content);
    }
  }

  lemma BufferHoldsRecord(b: Buffers, next: nat, s: bytes)
    requires Ok(b) && |s| >= HDR && HeaderOk(s) && !NeedsRoom(b, next, s)
    ensures BufferFragment(b, next, s).0.future == b.future
  {
    hide Accept, FreshSlot, MakeSpace;
  }

  lemma ObtainHoldsRecord(r: Receiver, rec: Record)
    requires ReceiverOk(r) && r.b.future == Some(rec) && rec.epoch != r.epoch
    ensures Obtain(r).0.b.future == Some(rec)
  {
    hide Loadable;
  }

  lemma TurnHoldsRecord(r: Receiver, rec: Record)
    requires ReceiverOk(r) && r.b.future == Some(rec) && rec.epoch != r.epoch && !TurnMakesRoom(r)
    ensures Turn(r).0.b.future == Some(rec)
  {
    hide Obtain, Handle, MakesRoom;
    ObtainOk(r);
    ObtainHoldsRecord(r, rec);
    if Obtain(r).1 == Done {
      HandleHoldsRecord(Obtain(r).0);
    }
  }

  /** A kept record of another epoch stays, unless room is made. */
  lemma {:induction false} ReadHoldsRecord(r: Receiver, rec: Record)
    requires ReceiverOk(r) && r.b.future == Some(rec) && rec.epoch != r.epoch && !ReadMakesRoom(r)
    ensures Read(r).0.b.future == Some(rec)
    decreases |r.wire|, Backlog(r), Left(r)
  {
    hide Turn, ReceiverOk, TurnMakesRoom;
    TurnOk(r);
    TurnHoldsRecord(r, rec);
    if Turn(r).1 == Continue {
      TurnGoesOn(r);
      ReadHoldsRecord(Turn(r).0, rec);
    }
  }

  /** The turn takes the record out of its datagram; it is a handshake record of the next
      epoch, there is none yet, and it fits. */
  predicate TakesEarly(r: Receiver, rec: Record)
    requires ReceiverOk(r)
  {
    var c := Consume(r);
    && c.content == [] && !CutOff(c) && !(c.datagram == [] && LoadMessage(c).1)
    && var (f, ok) := Fetch(c);
       && ok && f.datagram != [] && f.datagram[0] == rec
       && rec.header == WellFormed && rec.kind == Handshake && rec.epoch == r.epoch + 1
       && f.b.future == None && Fits(f.b, rec.size)
  }

  predicate ReadTakesEarly(r: Receiver, rec: Record)
    requires ReceiverOk(r)
    decreases |r.wire|, Backlog(r), Left(r)
  {
    TurnOk(r);
    TakesEarly(r, rec) || (Turn(r).1 == Continue && (TurnGoesOn(r); ReadTakesEarly(Turn(r).0, rec)))
  }

  lemma TurnKeepsEarly(r: Receiver, rec: Record)
    requires ReceiverOk(r) && TakesEarly(r, rec)
    ensures Turn(r).1 == Continue && Turn(r).0.b.future == Some(rec)
  {
    hide Fetch, Loadable, Fits;
    var f := Fetch(Consume(r)).0;
    FetchSame(Consume(r));
    FetchOk(Consume(r));
    assert GetNext(Consume(r)) == TakeRecord(f);
    assert TakeRecord(f) == (f.(datagram := f.datagram[1..], b := KeepFuture(f.b, rec)), Continue);
  }

  /** A record of the next epoch that is read, none being kept and room for it, is kept. */
  lemma {:induction false} ReadKeepsEarly(r: Receiver, rec: Record)
    requires ReceiverOk(r) && ReadTakesEarly(r, rec) && !ReadMakesRoom(r)
    ensures Read(r).0.b.future == Some(rec) && rec.epoch == r.epoch + 1
    decreases |r.wire|, Backlog(r), Left(r)
  {
    hide Turn, ReceiverOk, TurnMakesRoom;
    TurnOk(r);
    if TakesEarly(r, rec) {
      TurnKeepsEarly(r, rec);
      TurnGoesOn(r);
      ReadHoldsRecord(Turn(r).0, rec);
    } else {
      TurnGoesOn(r);
      ReadKeepsEarly(Turn(r).0, rec);
    }
  }

  /** From action n to action m the flight is not done, and no read makes room. */
  predicate Quiet(r: Receiver, actions: seq<Action>, n: nat, m: nat)
    requires ReceiverOk(r) && n <= m <= |actions|
  {
    forall i :: n <= i < m ==> actions[i] != FlightDone && QuietAt(r, actions, i)
  }

  predicate QuietAt(r: Receiver, actions: seq<Action>, i: nat)
    requires ReceiverOk(r) && i < |actions|
  {
    actions[i] == ReadMessage ==> !ReadMakesRoom(Run(r, actions, i).0)
  }

  predicate NoSwitch(actions: seq<Action>, n: nat, m: nat)
    requires n <= m <= |actions|
  {
    forall i :: n <= i < m ==> actions[i] != SwitchEpoch
  }

  lemma {:induction false} RecordStays(r: Receiver, actions: seq<Action>, n: nat, m: nat, rec: Record)
    requires ReceiverOk(r) && n <= m <= |actions| && Quiet(r, actions, n, m) && NoSwitch(actions, n, m)
    requires var q := Run(r, actions, n).0; q.b.future == Some(rec) && rec.epoch == q.epoch + 1
    ensures var q := Run(r, actions, m).0; q.b.future == Some(rec) && rec.epoch == q.epoch + 1
    decreases m
  {
    hide ReceiverOk, Read, ReadMakesRoom;
    if n < m {
      RecordStays(r, actions, n, m - 1, rec);
      var q := Run(r, actions, m - 1).0;
      assert QuietAt(r, actions, m - 1) && actions[m - 1] != SwitchEpoch && actions[m - 1] != FlightDone;
      if actions[m - 1] == ReadMessage {
        ReadHoldsRecord(q, rec);
        ReadOk(q);
      }
    }
  }

  /** In any run: a handshake record of the next epoch that a read meets, none being kept
      and room for it, is there when its epoch begins, unless room was made for the next
      message or the flight was done in between. It counts as arrived as soon as the
      datagram in progress is used up. */
  lemma {:induction false} EarlyRecordIsOffered(
      r: Receiver, actions: seq<Action>, n: nat, m: nat, rec: Record)
    requires ReceiverOk(r) && n < m < |actions| && actions[n] == ReadMessage && actions[m] == SwitchEpoch
    requires ReadTakesEarly(Run(r, actions, n).0, rec)
    requires Quiet(r, actions, n, m) && NoSwitch(actions, n, m)
    ensures var q := Run(r, actions, m + 1).0;
      && q.b.future == Some(rec) && rec.epoch == q.epoch
      && forall j :: RecordOffers(rec, q.epoch, q.next, j) ==>
        KeptOffers(q, j) && (q.datagram == [] && Rest(q.content, q.hsLen) == [] ==> CanGet(q, j))
  {
    hide ReceiverOk, Read, ReadMakesRoom, ReadTakesEarly, Rest;
    var q := Run(r, actions, n).0;
    assert QuietAt(r, actions, n);
    ReadKeepsEarly(q, rec);
    ReadOk(q);
    RecordStays(r, actions, n + 1, m, rec);
  }

  /** So a message that overtook the change of epochs is handed up by the first read after
      it, if nothing is left of a datagram. */
  lemma {:induction false} EarlyMessageIsHandedUp(
      limits: Limits, start: nat, epoch: nat, actions: seq<Action>, n: nat, m: nat, rec: Record, M: seq<Message>)
    requires Sendable(M) && start <= |M| && ActionsOk(actions, M)
    requires n < m && m + 1 < |actions|
    requires actions[n] == ReadMessage && actions[m] == SwitchEpoch && actions[m + 1] == ReadMessage
    requires ReceiverOk(Start(limits, start, epoch))
    requires ReadTakesEarly(Run(Start(limits, start, epoch), actions, n).0, rec) && rec.authentic
    requires Quiet(Start(limits, start, epoch), actions, n, m) && NoSwitch(actions, n, m)
    requires var q := Run(Start(limits, start, epoch), actions, m + 1).0;
      && !q.expectCcs && q.datagram == [] && Rest(q.content, q.hsLen) == []
      && q.next < |M| && rec.content == Canon(M[q.next], q.next)
      && NextFits(q.b.limits, M[q.next]) && Plain(First(q, 0))
    ensures var (q, sts) := Run(Start(limits, start, epoch), actions, m + 1);
      var (q', sts') := Run(Start(limits, start, epoch), actions, m + 2);
      sts' == sts + [Done] && q'.transcript == q.transcript + [Canon(M[q.next], q.next)]
  {
    hide ReceiverOk, Read, ReadMakesRoom, ReadTakesEarly, Rest, Plain, NextFits, Canon, Offers, ActionsOk, Sendable;
    var r := Start(limits, start, epoch);
    EarlyRecordIsOffered(r, actions, n, m, rec);
    var q := Run(r, actions, m + 1).0;
    EarlyIsTaken(Run(r, actions, n).0, rec);
    forall j: nat | j < Extent(M[q.next])
      ensures CanGet(First(q, 0), j)
    {
      CanonOffers(M, q.next, j);
      assert KeptOffers(First(q, 0), j);
    }
    RunProgress(limits, start, epoch, actions, m + 1, M, 0);
  }

  lemma {:induction false} EarlyIsTaken(r: Receiver, rec: Record)
    requires ReceiverOk(r) && ReadTakesEarly(r, rec)
    ensures rec.header == WellFormed && rec.kind == Handshake
    decreases |r.wire|, Backlog(r), Left(r)
  {
    hide Turn, ReceiverOk;
    TurnOk(r);
    if !TakesEarly(r, rec) {
      TurnGoesOn(r);
      EarlyIsTaken(Turn(r).0, rec);
    }
  }

  lemma CanonOffers(M: seq<Message>, i: nat, j: nat)
    requires Sendable(M) && i < |M| && j < Extent(M[i])
    ensures Offers(Canon(M[i], i), i, j)
  {
    CanonIsSlice(M, i);
    var s := Canon(M[i], i);
    assert FragOff(s) == 0 && FragLen(s) == TotalLen(s) == |M[i].body|;
  }

  // ---------- Fragments of messages to come

  /** Slot k has byte j of its message, or is there at all if the message has no bytes. */
  predicate HasByte(b: Buffers, k: nat, j: nat)
  {
    && k < |b.slots| && b.slots[k].Slot?
    && (b.slots[k].have == [] || (j < |b.slots[k].have| && b.slots[k].have[j]))
  }

  /** The fragment s of one of the next four messages has byte j, and a slot that goes with
      it or room for one. */
  predicate BuffersByte(b: Buffers, next: nat, s: bytes, number: nat, j: nat)
    requires Ok(b) && |s| >= HDR && HeaderOk(s)
  {
    && Supplies(s, number, j) && next <= number < next + SLOTS
    && var slot := b.slots[number - next];
       if slot.Slot? then slot.header[..4] == s[..4]
       else HDR + TotalLen(s) <= b.limits.content && Fits(b, BufferSize(TotalLen(s), IsFragment(s)))
  }

  lemma BufferTakesByte(b: Buffers, next: nat, s: bytes, number: nat, j: nat)
    requires Ok(b) && |s| >= HDR && HeaderOk(s) && BuffersByte(b, next, s, number, j)
    ensures BufferFragment(b, next, s).1 == RetOk
    ensures HasByte(BufferFragment(b, next, s).0, number - next, j)
  {
    var slot := b.slots[number - next];
    SuppliesNext(s, number, j);
    if slot.Empty? {
      AcceptSupplies(FreshSlot(s), s, number, j);
    } else {
      SameLength(slot.header, s);
      if !slot.complete {
        AcceptSupplies(slot, s, number, j);
      } else {
        assert AllHave(slot.have) && |slot.have| == TotalLen(s);
      }
    }
  }

  lemma BufferHoldsByte(b: Buffers, next: nat, s: bytes, k: nat, j: nat)
    requires Ok(b) && |s| >= HDR && HeaderOk(s) && !NeedsRoom(b, next, s) && HasByte(b, k, j)
    ensures HasByte(BufferFragment(b, next, s).0, k, j)
  {
    hide FreshSlot, MakeSpace, IsFragment;
    if MsgSeq(s) == next + k && b.slots[k].header[..4] == s[..4] {
      SameLength(b.slots[k].header, s);
    }
  }

  lemma HandleHoldsByte(r: Receiver, k: nat, j: nat)
    requires ReceiverOk(r) && !MakesRoom(r) && HasByte(r.b, k, j)
    ensures HasByte(Handle(r).0.b, k, j)
  {
    hide BufferFragment, HeaderOk, Ok, HasByte;
    if r.kind == Handshake && |r.content| >= HDR && HeaderOk(r.content) && Judge(r.content, r.next) == Early {
      BufferHoldsByte(r.b, r.next, r.content, k, j);
    }
  }

  lemma SameSlotsByte(b: Buffers, b': Buffers, k: nat, j: nat)
    requires b.slots == b'.slots
    ensures HasByte(b', k, j) == HasByte(b, k, j)
  {
  }

  lemma TurnHoldsByte(r: Receiver, k: nat, j: nat)
    requires ReceiverOk(r) && !TurnMakesRoom(r) && HasByte(r.b, k, j)
    ensures HasByte(Turn(r).0.b, k, j)
  {
    hide Obtain, Handle, MakesRoom, HasByte;
    ObtainOk(r);
    SameSlotsByte(r.b, Obtain(r).0.b, k, j);
    if Obtain(r).1 == Done {
      HandleHoldsByte(Obtain(r).0, k, j);
    }
  }

  /** The turn has such a fragment at hand and finds it early, or no whole message. */
  predicate TurnBuffers(r: Receiver, number: nat, j: nat)
    requires ReceiverOk(r)
  {
    ObtainOk(r);
    var q := Obtain(r).0;
    && Obtain(r).1 == Done && q.kind == Handshake && |q.content| >= HDR && HeaderOk(q.content)
    && Judge(q.content, q.next) == Early && BuffersByte(q.b, q.next, q.content, number, j)
  }

  lemma TurnTakesByte(r: Receiver, number: nat, j: nat)
    requires ReceiverOk(r) && TurnBuffers(r, number, j)
    ensures Turn(r).1 == Continue && r.next <= number && HasByte(Turn(r).0.b, number - r.next, j)
  {
    hide Obtain, BufferFragment, HeaderOk, HasByte;
    ObtainOk(r);
    var q := Obtain(r).0;
    BufferTakesByte(q.b, q.next, q.content, number, j);
  }

  predicate ReadBuffers(r: Receiver, number: nat, j: nat)
    requires ReceiverOk(r)
    decreases |r.wire|, Backlog(r), Left(r)
  {
    TurnOk(r);
    TurnBuffers(r, number, j) || (Turn(r).1 == Continue && (TurnGoesOn(r); ReadBuffers(Turn(r).0, number, j)))
  }

  /** Byte j of the message of that number is buffered, or the message is no longer awaited. */
  predicate Kept(r: Receiver, number: nat, j: nat)
  {
    r.next <= number ==> HasByte(r.b, number - r.next, j)
  }

  lemma UpdateHoldsByte(r: Receiver, number: nat, j: nat)
    requires |r.b.slots| == SLOTS && r.hsLen <= |r.content| && Kept(r, number, j)
    ensures Kept(Update(r), number, j)
  {
    if r.next < number {
      var k := number - r.next - 1;
      assert Advance(r.b).slots[k] == r.b.slots[k + 1];
    }
  }

  lemma {:induction false} ReadHoldsByte(r: Receiver, number: nat, j: nat)
    requires ReceiverOk(r) && !ReadMakesRoom(r) && Kept(r, number, j)
    ensures Kept(Read(r).0, number, j)
    decreases |r.wire|, Backlog(r), Left(r)
  {
    hide Turn, TurnMakesRoom, HasByte, Update;
    TurnOk(r);
    var (r', st) := Turn(r);
    if r.next <= number {
      TurnHoldsByte(r, number - r.next, j);
    }
    if st == Continue {
      TurnGoesOn(r);
      ReadHoldsByte(r', number, j);
    } else if st == Done && r'.kind == Handshake {
      UpdateHoldsByte(r', number, j);
    }
  }

  lemma {:induction false} ReadTakesByte(r: Receiver, number: nat, j: nat)
    requires ReceiverOk(r) && ReadBuffers(r, number, j) && !ReadMakesRoom(r)
    ensures Kept(Read(r).0, number, j)
    decreases |r.wire|, Backlog(r), Left(r)
  {
    hide Turn, TurnMakesRoom, HasByte, ReceiverOk;
    TurnOk(r);
    if TurnBuffers(r, number, j) {
      TurnTakesByte(r, number, j);
    }
    TurnGoesOn(r);
    if TurnBuffers(r, number, j) {
      ReadHoldsByte(Turn(r).0, number, j);
    } else {
      ReadTakesByte(Turn(r).0, number, j);
    }
  }

  lemma {:induction false} ByteStays(r: Receiver, actions: seq<Action>, n: nat, m: nat, number: nat, j: nat)
    requires ReceiverOk(r) && n <= m <= |actions| && Quiet(r, actions, n, m)
    requires Kept(Run(r, actions, n).0, number, j)
    ensures Kept(Run(r, actions, m).0, number, j)
    decreases m
  {
    hide ReceiverOk, Read, ReadMakesRoom, HasByte;
    if n < m {
      ByteStays(r, actions, n, m - 1, number, j);
      var q := Run(r, actions, m - 1).0;
      assert QuietAt(r, actions, m - 1) && actions[m - 1] != FlightDone;
      if actions[m - 1] == ReadMessage {
        ReadHoldsByte(q, number, j);
      }
    }
  }

  /** In any run: what a read finds early of one of the next messages, with a slot or room
      for one, is there when the message is the next one, unless room was made or the
      flight was done in between. */
  lemma {:induction false} EarlyByteIsThere(
      r: Receiver, actions: seq<Action>, n: nat, m: nat, number: nat, j: nat)
    requires ReceiverOk(r) && n < m <= |actions| && actions[n] == ReadMessage
    requires ReadBuffers(Run(r, actions, n).0, number, j) && Quiet(r, actions, n, m)
    requires Run(r, actions, m).0.next == number
    ensures CanGet(Run(r, actions, m).0, j)
  {
    hide ReceiverOk, Read, ReadMakesRoom, ReadBuffers;
    assert QuietAt(r, actions, n);
    ReadTakesByte(Run(r, actions, n).0, number, j);
    ByteStays(r, actions, n + 1, m, number, j);
  }

  // ---------- A ChangeCipherSpec

  lemma TurnHoldsCcs(r: Receiver)
    requires ReceiverOk(r) && r.seenCcs && !r.expectCcs
    ensures Turn(r).0.seenCcs
  {
    hide Loadable, BufferFragment, Ok;
  }

  lemma {:induction false} ReadHoldsCcs(r: Receiver)
    requires ReceiverOk(r) && r.seenCcs && !r.expectCcs
    ensures Read(r).0.seenCcs && !Read(r).0.expectCcs
    decreases |r.wire|, Backlog(r), Left(r)
  {
    hide Turn, ReceiverOk;
    TurnOk(r);
    TurnHoldsCcs(r);
    if Turn(r).1 == Continue {
      TurnGoesOn(r);
      ReadHoldsCcs(Turn(r).0);
    }
  }

  /** The turn has a ChangeCipherSpec at hand. */
  predicate TurnTakesCcs(r: Receiver)
    requires ReceiverOk(r)
  {
    Obtain(r).1 == Done && Obtain(r).0.kind == ChangeCipherSpec && Obtain(r).0.content == [1]
  }

  predicate ReadTakesCcs(r: Receiver)
    requires ReceiverOk(r)
    decreases |r.wire|, Backlog(r), Left(r)
  {
    TurnOk(r);
    TurnTakesCcs(r) || (Turn(r).1 == Continue && (TurnGoesOn(r); ReadTakesCcs(Turn(r).0)))
  }

  lemma TurnRemembersCcs(r: Receiver)
    requires ReceiverOk(r) && TurnTakesCcs(r)
    ensures if r.expectCcs then Turn(r).1 == Done && Turn(r).0.kind == ChangeCipherSpec
      else Turn(r).1 == Continue && Turn(r).0.seenCcs
  {
    hide Obtain;
    ObtainOk(r);
  }

  /** A ChangeCipherSpec that comes early is remembered. */
  lemma {:induction false} ReadRemembersCcs(r: Receiver)
    requires ReceiverOk(r) && ReadTakesCcs(r) && !r.expectCcs
    ensures Read(r).0.seenCcs
    decreases |r.wire|, Backlog(r), Left(r)
  {
    hide Turn, ReceiverOk, TurnTakesCcs;
    TurnOk(r);
    TurnGoesOnWithCcs(r);
    TurnGoesOn(r);
    if TurnTakesCcs(r) {
      TurnRemembersCcs(r);
      ReadHoldsCcs(Turn(r).0);
    } else {
      ReadRemembersCcs(Turn(r).0);
    }
  }

  lemma TurnGoesOnWithCcs(r: Receiver)
    requires ReceiverOk(r) && ReadTakesCcs(r) && !r.expectCcs
    ensures Turn(r).1 == Continue
  {
    hide Turn, TurnTakesCcs;
    TurnOk(r);
    if TurnTakesCcs(r) {
      TurnRemembersCcs(r);
    }
  }

  /** Once it is awaited, a read that finds nothing left of a datagram hands it up, and
      forgets it; no message is handed up for it. */
  lemma RememberedCcsIsHandedUp(r: Receiver)
    requires ReceiverOk(r) && r.seenCcs && r.expectCcs && r.datagram == [] && Rest(r.content, r.hsLen) == []
    ensures var (r', st) := Read(r);
      && st == Done && r'.kind == ChangeCipherSpec && r'.content == [1] && !r'.seenCcs
      && r'.transcript == r.transcript && r'.next == r.next
  {
    var c := Consume(r);
    assert Obtain(r) == (c.(kind := ChangeCipherSpec, content := [1], seenCcs := false), Done);
  }

  lemma {:induction false} CcsStays(r: Receiver, actions: seq<Action>, n: nat, m: nat)
    requires ReceiverOk(r) && n <= m <= |actions| && Run(r, actions, n).0.seenCcs
    requires Unawaited(r, actions, n, m)
    ensures Run(r, actions, m).0.seenCcs
    decreases m
  {
    hide ReceiverOk, Read;
    if n < m {
      CcsStays(r, actions, n, m - 1);
      assert ReadsUnawaited(r, actions, m - 1) && actions[m - 1] != FlightDone;
      if actions[m - 1] == ReadMessage {
        ReadHoldsCcs(Run(r, actions, m - 1).0);
      }
    }
  }

  /** From action n to action m the flight is not done, and no read awaits one. */
  predicate Unawaited(r: Receiver, actions: seq<Action>, n: nat, m: nat)
    requires ReceiverOk(r) && n <= m <= |actions|
  {
    forall i :: n <= i < m ==> actions[i] != FlightDone && ReadsUnawaited(r, actions, i)
  }

  predicate ReadsUnawaited(r: Receiver, actions: seq<Action>, i: nat)
    requires ReceiverOk(r) && i < |actions|
  {
    actions[i] == ReadMessage ==> !Run(r, actions, i).0.expectCcs
  }

  /** In any run: a ChangeCipherSpec that a read meets before it is awaited is handed up
      when it is, unless the flight was done in between. */
  lemma {:induction false} EarlyCcsIsHandedUp(r: Receiver, actions: seq<Action>, n: nat, m: nat)
    requires ReceiverOk(r) && n < m < |actions| && actions[n] == actions[m] == ReadMessage
    requires ReadTakesCcs(Run(r, actions, n).0)
    requires Unawaited(r, actions, n, m)
    requires var q := Run(r, actions, m).0; q.expectCcs && q.datagram == [] && Rest(q.content, q.hsLen) == []
    ensures var (q, sts) := Run(r, actions, m);
      var (q', sts') := Run(r, actions, m + 1);
      && sts' == sts + [Done] && q'.kind == ChangeCipherSpec && !q'.seenCcs && q'.transcript == q.transcript
  {
    hide ReceiverOk, Read, ReadTakesCcs, Rest;
    assert ReadsUnawaited(r, actions, n);
    ReadRemembersCcs(Run(r, actions, n).0);
    CcsStays(r, actions, n + 1, m);
    RememberedCcsIsHandedUp(Run(r, actions, m).0);
  }

  // ---------- What each kind of record ends in

  /** Alerts, by level and description (section 7.2 of RFC 5246): a fatal one, a closing
      one, a refusal to renegotiate, and others that are passed over. */
  lemma AlertsEnd(r: Receiver)
    requires ReceiverOk(r) && r.kind == Alert
    ensures var (r', st) := Handle(r);
      && r' == r
      && (st == InvalidRecord <==> |r.content| != 2)
      && (st == FatalAlert <==> |r.content| == 2 && r.content[0] == 2)
      && (st == PeerClosed <==> r.content == [1, 0])
      && (st == Done <==> r.content == [1, 100])
      && st in {InvalidRecord, FatalAlert, PeerClosed, Done, Continue}
  {
  }

  /** A ChangeCipherSpec is one byte 1; application data are passed over. */
  lemma OthersEnd(r: Receiver)
    requires ReceiverOk(r) && (r.kind == ChangeCipherSpec || r.kind == ApplicationData)
    ensures var (r', st) := Handle(r);
      && r'.(seenCcs := r.seenCcs) == r
      && (st == InvalidRecord <==> r.kind == ChangeCipherSpec && r.content != [1])
      && (st == Done <==> r.kind == ChangeCipherSpec && r.content == [1] && r.expectCcs)
      && (st == Continue <==>
            r.kind == ApplicationData || (r.kind == ChangeCipherSpec && r.content == [1] && !r.expectCcs))
      && (r'.seenCcs <==> r.seenCcs || (r.kind == ChangeCipherSpec && st == Continue))
  {
  }

  /** A handshake message is handed up if it is the next one and whole, refused if its
      header is wrong, and dropped if it is an old one; else it is buffered. */
  lemma HandshakesEnd(r: Receiver)
    requires ReceiverOk(r) && r.kind == Handshake
    ensures var (r', st) := Handle(r);
      var s := r.content;
      && (st == InvalidRecord <==>
            |s| < 12 || U24At(s, 6) + U24At(s, 9) > U24At(s, 1) || 12 + U24At(s, 9) > |s|)
      && (st == Done <==>
            |s| >= 12 && U16At(s, 4) == r.next && U24At(s, 6) == 0 && U24At(s, 9) == U24At(s, 1)
            && 12 + U24At(s, 1) <= |s|)
      && (|s| >= 12 && st != InvalidRecord && U16At(s, 4) < r.next ==> st == Continue && r'.b == r.b)
  {
    var s := r.content;
    if |s| >= 12 {
      HeaderFields(s);
    }
    hide BufferFragment, IsFragment;
  }

  lemma HeaderFields(s: bytes)
    requires |s| >= 12
    ensures HeaderOk(s) <==> U24At(s, 6) + U24At(s, 9) <= U24At(s, 1) && 12 + U24At(s, 9) <= |s|
    ensures IsFragment(s) <==> |s| < 12 + U24At(s, 1) || U24At(s, 6) != 0 || U24At(s, 9) != U24At(s, 1)
  {
    assert s[6..9] == [0, 0, 0] <==> s[6] == 0 && s[7] == 0 && s[8] == 0;
    PutU24At(s, 9);
    PutU24At(s, 1);
  }

  /** Reading ends with an invalid record where one that is taken in is empty, but for
      application data, or too long. */
  lemma RecordsEnd(r: Receiver)
    requires r.datagram != [] && |r.b.slots| == SLOTS
    ensures var (r', st) := TakeRecord(r);
      var rec := r.datagram[0];
      && (st == InvalidRecord <==>
            Taken(rec, r.epoch)
            && ((rec.content == [] && rec.kind != ApplicationData) || |rec.content| > r.b.limits.content))
      && (st == Done ==> Taken(rec, r.epoch) && r'.kind == rec.kind && r'.content == rec.content)
      && (st == Done || st == Continue || st == InvalidRecord) && (!Taken(rec, r.epoch) ==> st == Continue)
      && r'.datagram == (if Drops(rec, r.epoch) then [] else r.datagram[1..])
      && (r'.b.future != r.b.future <==>
            && rec.header == WellFormed && rec.epoch == r.epoch + 1 && rec.kind == Handshake
            && r.b.future == None && rec.size + Held(r.b) <= r.b.limits.buffering)
      && (r'.b.future != r.b.future ==> r'.b.future == Some(rec))
  {
    TotalIsHeld(r.b);
  }

  // ---------- What is held

  /** A record that is kept is a handshake record, at most one epoch ahead. */
  predicate KeptOk(r: Receiver)
  {
    match r.b.future
    case None => true
    case Some(rec) => rec.header == WellFormed && rec.kind == Handshake && rec.epoch <= r.epoch + 1
  }

  lemma GetNextKeptOk(r: Receiver)
    requires ReceiverOk(r) && KeptOk(r)
    ensures KeptOk(GetNext(r).0)
  {
    hide TakeRecord, Held, SlotOk;
    FetchOk(r);
    var (f, ok) := Fetch(r);
    if ok && f.datagram != [] {
      RecordsEnd(f);
      TakeRecordOk(f);
    }
  }

  lemma TurnKeptOk(r: Receiver)
    requires ReceiverOk(r) && KeptOk(r)
    ensures KeptOk(Turn(r).0)
  {
    hide GetNext, Handle, Loadable, SlotOk;
    ObtainOk(r);
    GetNextKeptOk(Consume(r));
    if Obtain(r).1 == Done {
      HandleOk(Obtain(r).0);
    }
  }

  lemma {:induction false} ReadKeptOk(r: Receiver)
    requires ReceiverOk(r) && KeptOk(r)
    ensures KeptOk(Read(r).0)
    decreases |r.wire|, Backlog(r), Left(r)
  {
    hide Turn, ReceiverOk;
    TurnOk(r);
    TurnKeptOk(r);
    if Turn(r).1 == Continue {
      TurnGoesOn(r);
      ReadKeptOk(Turn(r).0);
    }
  }

  /** At any point of any run the memory held is within the limit, and a record that is kept
      is a handshake record, at most one epoch ahead. */
  lemma {:induction false} HeldInRun(limits: Limits, start: nat, epoch: nat, actions: seq<Action>, n: nat)
    requires n <= |actions|
    ensures ReceiverOk(Start(limits, start, epoch))
    ensures var r := Run(Start(limits, start, epoch), actions, n).0;
      ReceiverOk(r) && r.b.limits == limits && Held(r.b) <= limits.buffering && KeptOk(r)
  {
    hide Read, Held, Total;
    StartOk(limits, start, epoch);
    var r := Run(Start(limits, start, epoch), actions, n).0;
    TotalIsHeld(r.b);
    if n > 0 {
      HeldInRun(limits, start, epoch, actions, n - 1);
      var q := Run(Start(limits, start, epoch), actions, n - 1).0;
      ActOk(q, actions[n - 1]);
      if actions[n - 1].ReadMessage? {
        ReadKeptOk(q);
        ReadOk(q);
      }
    }
  }

  // ---------- Between flights

  /** The same, whatever was buffered. */
  predicate SameButBuffers(r: Receiver, q: Receiver)
  {
    q == r.(b := q.b, seenCcs := q.seenCcs) && q.b.limits == r.b.limits
  }

  /** Once a flight is done nothing of it is kept: no bytes count, no fragment, record or
      ChangeCipherSpec is there, and what comes does not depend on what was buffered. */
  lemma {:induction false} FlightDoneForgets(r: Receiver, actions: seq<Action>, n: nat, q: Receiver)
    requires ReceiverOk(r) && n < |actions| && actions[n] == FlightDone
    requires ReceiverOk(q) && SameButBuffers(Run(r, actions, n).0, q)
    ensures var s := Run(r, actions, n + 1).0;
      && Act(q, FlightDone).0 == s && Total(s.b) == 0 && Loadable(s.b) == None && !s.seenCcs
      && (forall k, j :: !HasByte(s.b, k, j)) && (forall j :: !KeptOffers(s, j))
      && s.transcript == Run(r, actions, n).0.transcript && s.next == Run(r, actions, n).0.next
  {
    hide ReceiverOk;
    SlotsSizeZero(NoSlots);
  }
}
