/** Why the receiver does hand up the next message once all of it is there. */
module DtlsProgress {
  import opened Bytes
  import opened Reassembly
  import opened DtlsReading
  import opened DtlsDelivery

  // ---------- What is there of byte j of the next message

  /** s starts with a fragment that has byte j of message `next`, or is that message if it
      has no bytes. */
  predicate Supplies(s: bytes, next: nat, j: nat)
    requires |s| >= HDR
  {
    MsgSeq(s) == next && (FragOff(s) <= j < FragOff(s) + FragLen(s) || TotalLen(s) == 0)
  }

  /** One of the fragments that the receiver finds in s does. */
  predicate Offers(s: bytes, next: nat, j: nat)
    decreases |s|
  {
    |s| >= HDR && (Supplies(s, next, j) || Offers(Rest(s, HDR + TotalLen(s)), next, j))
  }

  /** The record is taken in. */
  predicate Taken(rec: Record, epoch: nat)
  {
    rec.header == WellFormed && rec.epoch == epoch && rec.authentic
  }

  /** The record takes the rest of its datagram with it. */
  predicate Drops(rec: Record, epoch: nat)
  {
    rec.header != WellFormed || (rec.epoch == epoch && !rec.authentic)
  }

  predicate RecordOffers(rec: Record, epoch: nat, next: nat, j: nat)
  {
    Taken(rec, epoch) && rec.kind == Handshake && Offers(rec.content, next, j)
  }

  /** One of the records of the datagram does, and is not dropped with another one. */
  predicate RecordsOffer(rs: seq<Record>, epoch: nat, next: nat, j: nat)
  {
    exists i :: 0 <= i < |rs| && RecordOffers(rs[i], epoch, next, j) && NoneDrops(rs[..i], epoch)
  }

  predicate NoneDrops(rs: seq<Record>, epoch: nat)
  {
    forall i :: 0 <= i < |rs| ==> !Drops(rs[i], epoch)
  }

  predicate WireOffers(wire: seq<seq<Record>>, epoch: nat, next: nat, j: nat)
  {
    exists i :: 0 <= i < |wire| && RecordsOffer(wire[i], epoch, next, j)
  }

  predicate SlotHas(b: Buffers, j: nat)
  {
    && |b.slots| > 0 && b.slots[0].Slot?
    && (b.slots[0].have == [] || (j < |b.slots[0].have| && b.slots[0].have[j]))
  }

  /** The record that was kept until its epoch does. */
  predicate KeptOffers(r: Receiver, j: nat)
  {
    r.b.future.Some? && RecordOffers(r.b.future.value, r.epoch, r.next, j)
  }

  /** It is buffered, or in the given rest of a record, or in a record of this epoch that
      has arrived; or, once all of the datagram is used up, in the record that was kept. */
  predicate Reachable(r: Receiver, rest: bytes, j: nat)
  {
    || SlotHas(r.b, j)
    || (rest == [] && r.datagram == [] && KeptOffers(r, j))
    || (r.kind == Handshake && Offers(rest, r.next, j))
    || RecordsOffer(r.datagram, r.epoch, r.next, j)
    || WireOffers(r.wire, r.epoch, r.next, j)
  }

  predicate CanGet(r: Receiver, j: nat)
  {
    Reachable(r, Rest(r.content, r.hsLen), j)
  }

  /** The next message is accepted and fits into the buffer. */
  predicate NextFits(l: Limits, m: Message)
  {
    HDR + |m.body| <= l.content && BufferSize(|m.body|, true) <= l.buffering
  }

  /** If the record is taken in, nothing in it ends reading: it is not too long, not empty
      where it must not be, and no malformed ChangeCipherSpec or alert that counts. */
  predicate PlainRecord(rec: Record, epoch: nat, l: Limits)
  {
    Taken(rec, epoch) ==>
      && |rec.content| <= l.content
      && (rec.content == [] ==> rec.kind == ApplicationData)
      && PlainContent(rec.kind, rec.content)
  }

  predicate PlainContent(kind: Kind, content: bytes)
  {
    && (kind == ChangeCipherSpec ==> content == [1])
    && (kind == Alert ==> JudgeAlert(content) == Continue)
  }

  /** The rest of a datagram in which nothing ends reading, and no header is cut off. */
  predicate PlainRest(rs: seq<Record>, epoch: nat, l: Limits)
  {
    forall i :: 0 <= i < |rs| && NoneDrops(rs[..i], epoch) ==> PlainRecord(rs[i], epoch, l) && rs[i].header != Cut
  }

  /** The same for a whole datagram: it may well be too short for a single header. */
  predicate PlainDatagram(rs: seq<Record>, epoch: nat, l: Limits)
  {
    rs != [] && (rs[0].header == Cut || PlainRest(rs, epoch, l))
  }

  predicate PlainToCome(r: Receiver)
  {
    && (forall i :: 0 <= i < |r.wire| ==> PlainDatagram(r.wire[i], r.epoch, r.b.limits))
    && (r.b.future.Some? ==> PlainRecord(r.b.future.value, r.epoch, r.b.limits))
  }

  predicate PlainFetched(r: Receiver)
  {
    && PlainToCome(r)
    && (r.datagram == [] || r.datagram[0].header == Cut || PlainRest(r.datagram, r.epoch, r.b.limits))
  }

  predicate Plain(r: Receiver)
  {
    PlainRest(r.datagram, r.epoch, r.b.limits) && PlainToCome(r)
  }

  // ---------- Buffering

  lemma BufferKeepsHave(b: Buffers, next: nat, s: bytes, j: nat)
    requires Ok(b) && |s| >= HDR && HeaderOk(s) && SlotHas(b, j)
    ensures SlotHas(BufferFragment(b, next, s).0, j)
  {
    if MsgSeq(s) == next && b.slots[0].header[..4] == s[..4] {
      SameLength(b.slots[0].header, s);
    }
  }

  lemma AcceptSupplies(slot: Slot, s: bytes, next: nat, j: nat)
    requires slot.Slot? && |s| >= HDR && HeaderOk(s) && |slot.body| == |slot.have| == TotalLen(s)
    requires Supplies(s, next, j)
    ensures var have := Accept(slot, s).have; have == [] || (j < |have| && have[j])
  {
  }

  lemma BufferGains(b: Buffers, next: nat, s: bytes, M: seq<Message>, j: nat)
    requires Ok(b) && Faithful(b, M, next) && IsSlice(s, M) && Sendable(M) && MsgSeq(s) == next
    requires NextFits(b.limits, M[next]) && Supplies(s, next, j)
    ensures SlotHas(BufferFragment(b, next, s).0, j)
  {
    if b.slots[0].Empty? {
      MakeSpaceMinimal(b, BufferSize(TotalLen(s), IsFragment(s)));
      AcceptSupplies(FreshSlot(s), s, next, j);
    } else {
      SlicePrefix(s, M);
      var slot := b.slots[0];
      assert slot.header == s[..6] + [0, 0, 0] + s[1..4];
      assert slot.header[..4] == s[..4];
      if !slot.complete {
        AcceptSupplies(slot, s, next, j);
      } else {
        assert AllHave(slot.have) && |slot.have| == TotalLen(s);
      }
    }
  }

  lemma NeverTooSmall(b: Buffers, next: nat, s: bytes, M: seq<Message>)
    requires Ok(b) && IsSlice(s, M) && next < |M| && NextFits(b.limits, M[next]) && MsgSeq(s) >= next
    ensures BufferFragment(b, next, s).1 == RetOk
  {
    NextMessageRefusedOnlyIfTooLarge(b, next, s);
    BufferFragmentErrors(b, next, s);
  }

  // ---------- Turns

  /** The record at hand makes nothing fail. */
  predicate PlainAtHand(r: Receiver)
  {
    Plain(r) && PlainContent(r.kind, r.content)
  }

  /** The next message is at hand. */
  predicate IsNext(r: Receiver)
  {
    r.kind == Handshake && Judge(r.content, r.next) == Done
  }

  /** Nothing was kept for this epoch. */
  predicate NothingKept(r: Receiver)
  {
    r.b.future.Some? ==> r.b.future.value.epoch != r.epoch
  }

  lemma HandleHandshakeKeeps(r: Receiver, M: seq<Message>, j: nat)
    requires ReceiverOk(r) && AtHand(r, M) && r.next < |M| && NextFits(r.b.limits, M[r.next])
    requires (Reachable(r, r.content, j) || IsNext(r)) && r.kind == Handshake
    ensures var (r', st) := Handle(r);
      (st == Continue || st == Done) && (st == Continue ==> CanGet(r', j))
  {
    hide BufferFragment, IsSlice, InSync, Supplies, Ok, Numbered, Faithful, SlotHas, HeaderOk, RecordsOffer,
      WireOffers, RecordsOk, WireOk, RecordOk, IsFragment;
    var s := r.content;
    RestInSync(s, M);
    if MsgSeq(s) >= r.next {
      NeverTooSmall(r.b, r.next, s, M);
      if SlotHas(r.b, j) {
        BufferKeepsHave(r.b, r.next, s, j);
      }
      if Supplies(s, r.next, j) {
        SuppliesNext(s, r.next, j);
        BufferGains(r.b, r.next, s, M, j);
      }
    } else if Supplies(s, r.next, j) {
      SuppliesNext(s, r.next, j);
    }
    HandleOk(r);
  }

  lemma SuppliesNext(s: bytes, next: nat, j: nat)
    requires |s| >= HDR && Supplies(s, next, j)
    ensures MsgSeq(s) == next
  {
  }

  lemma HandleKeeps(r: Receiver, M: seq<Message>, j: nat)
    requires ReceiverOk(r) && AtHand(r, M) && !r.expectCcs && r.next < |M| && NextFits(r.b.limits, M[r.next])
    requires (Reachable(r, r.content, j) || IsNext(r)) && PlainAtHand(r)
    ensures var (r', st) := Handle(r);
      && (st == Continue || (st == Done && r'.kind == Handshake)) && (st == Continue ==> CanGet(r', j)) && Plain(r')
  {
    hide IsSlice, InSync, Ok, Numbered, Faithful, SlotHas, BufferFragment, RecordsOffer, WireOffers;
    HandleOk(r);
    if r.kind == Handshake {
      HandleHandshakeKeeps(r, M, j);
    }
  }

  lemma FetchKeeps(r: Receiver, j: nat)
    requires Plain(r)
    ensures var (r', ok) := Fetch(r);
      && PlainFetched(r') && (Reachable(r, [], j) ==> Reachable(r', [], j))
      && (if ok then r'.datagram != [] else Plain(r') && r'.datagram == [] && r'.wire == [] && NothingKept(r'))
  {
    hide PlainRecord, RecordOffers, SlotHas, Drops;
    var r' := Fetch(r).0;
    if r.datagram == [] && KeptOffers(r, j) {
      OfferedAlone(r.b.future.value, r.epoch, r.next, j);
    }
    if WireOffers(r.wire, r.epoch, r.next, j) && r'.wire != r.wire {
      var i :| 0 <= i < |r.wire| && RecordsOffer(r.wire[i], r.epoch, r.next, j);
      assert i > 0 ==> r'.wire[i - 1] == r.wire[i];
    }
    assert SlotHas(r'.b, j) == SlotHas(r.b, j) by {
      SameSlotsHave(r.b, r'.b, j);
    }
  }

  lemma OfferedAlone(rec: Record, epoch: nat, next: nat, j: nat)
    requires RecordOffers(rec, epoch, next, j)
    ensures RecordsOffer([rec], epoch, next, j) && rec.epoch == epoch
  {
    assert NoneDrops([rec][..0], epoch);
  }

  lemma PlainIsNotCutOff(r: Receiver)
    requires Plain(r)
    ensures !CutOff(r)
  {
    if r.datagram != [] {
      assert NoneDrops(r.datagram[..0], r.epoch);
    }
  }

  lemma SameSlotsHave(b: Buffers, b': Buffers, j: nat)
    requires b.slots == b'.slots
    ensures SlotHas(b', j) == SlotHas(b, j)
  {
  }

  lemma TakeRecordKeeps(r: Receiver, j: nat)
    requires PlainFetched(r) && r.datagram != [] && Reachable(r, [], j)
    ensures var (r', st) := TakeRecord(r);
      && (st == Done || st == Continue)
      && if st == Done then PlainAtHand(r') && Reachable(r', r'.content, j) else Plain(r') && Reachable(r', [], j)
  {
    hide Offers, JudgeAlert, NoneDrops, PlainRest, PlainDatagram;
    NothingOffers(r.next, j);
    var r' := TakeRecord(r).0;
    NothingIsPlain(r.epoch, r.b.limits);
    if r.datagram[0].header != Cut {
      PlainOnce(r.datagram, r.epoch, r.b.limits);
    }
    SameSlotsHave(r.b, r'.b, j);
    OffersOnce(r.datagram, r.epoch, r.next, j);
  }

  lemma PlainOnce(rs: seq<Record>, epoch: nat, l: Limits)
    requires rs != [] && PlainRest(rs, epoch, l)
    ensures PlainRecord(rs[0], epoch, l)
    ensures !Drops(rs[0], epoch) ==> PlainRest(rs[1..], epoch, l)
  {
    hide PlainRecord, Drops;
    assert NoneDrops(rs[..0], epoch);
    if !Drops(rs[0], epoch) {
      forall i | 0 <= i < |rs[1..]| && NoneDrops(rs[1..][..i], epoch)
        ensures PlainRecord(rs[1..][i], epoch, l) && rs[1..][i].header != Cut
      {
        assert rs[..i + 1] == [rs[0]] + rs[1..][..i] && rs[i + 1] == rs[1..][i];
      }
    }
  }

  lemma NothingIsPlain(epoch: nat, l: Limits)
    ensures PlainRest([], epoch, l)
  {
  }

  lemma OffersOnce(rs: seq<Record>, epoch: nat, next: nat, j: nat)
    requires rs != []
    ensures RecordsOffer(rs, epoch, next, j) <==>
      RecordOffers(rs[0], epoch, next, j) || (!Drops(rs[0], epoch) && RecordsOffer(rs[1..], epoch, next, j))
  {
    hide RecordOffers, Drops;
    if RecordsOffer(rs, epoch, next, j) {
      var i :| 0 <= i < |rs| && RecordOffers(rs[i], epoch, next, j) && NoneDrops(rs[..i], epoch);
      if i > 0 {
        assert rs[..i][0] == rs[0] && rs[1..][i - 1] == rs[i] && rs[1..][..i - 1] == rs[..i][1..];
      }
    }
    if RecordOffers(rs[0], epoch, next, j) {
      assert NoneDrops(rs[..0], epoch);
    }
    if !Drops(rs[0], epoch) && RecordsOffer(rs[1..], epoch, next, j) {
      var i :| 0 <= i < |rs[1..]| && RecordOffers(rs[1..][i], epoch, next, j) && NoneDrops(rs[1..][..i], epoch);
      assert rs[i + 1] == rs[1..][i] && rs[..i + 1] == [rs[0]] + rs[1..][..i];
    }
  }

  lemma NothingOffers(next: nat, j: nat)
    ensures !Offers([], next, j)
  {
  }

  lemma GetNextKeeps(r: Receiver, j: nat)
    requires Plain(r) && Reachable(r, [], j)
    ensures var (r', st) := GetNext(r);
      && (st == Done || st == Continue || st == WantRead)
      && (if st == Done then PlainAtHand(r') && Reachable(r', r'.content, j) else Plain(r') && Reachable(r', [], j))
      && (st == WantRead ==> r'.datagram == [] && r'.wire == [] && NothingKept(r'))
  {
    hide NothingKept, Plain, PlainFetched, PlainAtHand, Reachable, Fetch, TakeRecord, CutOff;
    PlainIsNotCutOff(r);
    FetchKeeps(r, j);
    var (r1, ok) := Fetch(r);
    if ok && r1.datagram != [] {
      TakeRecordKeeps(r1, j);
    }
  }

  /** Nothing to come ends reading, and nothing is left of a record of another kind. */
  predicate Calm(r: Receiver)
  {
    Plain(r) && Settled(r)
  }

  predicate Settled(r: Receiver)
  {
    r.kind != Handshake ==> r.hsLen == 0
  }

  lemma ObtainKeeps(r: Receiver, j: nat)
    requires ReceiverOk(r) && Calm(r) && !r.expectCcs && CanGet(r, j)
    ensures var (r', st) := Obtain(r);
      && (st == Done || st == Continue || st == WantRead)
      && (if st == Done then PlainAtHand(r') && (Reachable(r', r'.content, j) || IsNext(r'))
          else Calm(r') && CanGet(r', j))
      && (st == WantRead ==>
            r'.datagram == [] && r'.wire == [] && r'.content == [] && NothingComplete(r'.b) && NothingKept(r'))
      && (st == Done ==> r'.kind != Handshake ==> r'.hsLen == 0)
  {
    hide Offers, RecordsOffer, WireOffers, SlotHas, PlainRest, PlainDatagram, PlainRecord, GetNext, Loadable;
    var c := Consume(r);
    NothingOffers(r.next, j);
    if c.content == [] {
      GetNextKeeps(c, j);
      GetNextOk(c);
      GetNextSame(c);
      SameSlotsLoad(c.b, GetNext(c).0.b);
      if LoadMessage(c).1 {
        LoadedIsDone(c);
      }
    }
  }

  predicate NothingComplete(b: Buffers)
  {
    |b.slots| == SLOTS && Loadable(b) == None
  }

  lemma SameSlotsLoad(b: Buffers, b': Buffers)
    requires |b.slots| == SLOTS && b.slots == b'.slots
    ensures Loadable(b) == Loadable(b')
  {
  }

  lemma FetchSame(r: Receiver)
    ensures var (r', ok) := Fetch(r);
      && r'.hsLen == r.hsLen && r'.content == r.content && r'.kind == r.kind && (!ok ==> r.datagram == [])
  {
  }

  lemma TakeRecordSame(r: Receiver)
    requires r.datagram != []
    ensures var (r', st) := TakeRecord(r);
      && r'.hsLen == r.hsLen && (st != Done ==> r'.content == r.content && r'.kind == r.kind) && st != WantRead
  {
  }

  lemma GetNextSame(r: Receiver)
    ensures var (r', st) := GetNext(r);
      && r'.hsLen == r.hsLen && (st != Done ==> r'.content == r.content && r'.kind == r.kind)
      && (st == WantRead ==> r.datagram == [])
  {
    hide Fetch, TakeRecord;
    FetchSame(r);
    if Fetch(r).0.datagram != [] {
      TakeRecordSame(Fetch(r).0);
    }
  }

  lemma TurnKeeps(r: Receiver, M: seq<Message>, j: nat)
    requires ReceiverOk(r) && InTune(r, M) && Calm(r) && !r.expectCcs && CanGet(r, j)
    requires r.next < |M| && NextFits(r.b.limits, M[r.next])
    ensures var (r', st) := Turn(r);
      && (st == Continue || st == WantRead || (st == Done && r'.kind == Handshake))
      && (st == Continue ==> Calm(r') && CanGet(r', j))
      && (st == WantRead ==> SlotHas(r'.b, j) && NothingComplete(r'.b))
  {
    hide Plain, InTune, AtHand, Handle, Obtain, SlotHas, NothingComplete, NextFits, Offers;
    ObtainKeeps(r, j);
    ObtainOk(r);
    ObtainInTune(r, M);
    NothingOffers(r.next, j);
    var (r1, st) := Obtain(r);
    if st == Done {
      HandleKeeps(r1, M, j);
      HandleOk(r1);
      assert r1.kind != Handshake ==> Rest(Handle(r1).0.content, 0) == [];
    } else if st == WantRead {
      NothingToOffer(r1, j);
    }
  }

  lemma NothingToOffer(r: Receiver, j: nat)
    requires CanGet(r, j) && r.datagram == [] && r.wire == [] && r.content == [] && NothingKept(r)
    ensures SlotHas(r.b, j)
  {
    NothingOffers(r.next, j);
  }

  /** An empty message counts as one byte. */
  function Extent(m: Message): (n: nat)
    ensures n > 0 && n >= |m.body|
  {
    if m.body == [] then 1 else |m.body|
  }

  /** All of the message is there. */
  predicate AllThere(r: Receiver, m: Message)
  {
    forall j: nat :: j < Extent(m) ==> CanGet(r, j)
  }

  lemma AllBuffered(b: Buffers, M: seq<Message>, next: nat)
    requires Ok(b) && Faithful(b, M, next) && next < |M|
    requires forall j: nat :: j < Extent(M[next]) ==> SlotHas(b, j)
    ensures Loadable(b).Some?
  {
    assert SlotHas(b, 0);
    var have := b.slots[0].have;
    forall j | 0 <= j < |have|
      ensures have[j]
    {
      assert SlotHas(b, j);
    }
  }

  lemma {:induction false} ReadsAllThere(r: Receiver, M: seq<Message>)
    requires ReceiverOk(r) && InTune(r, M) && Calm(r) && !r.expectCcs
    requires r.next < |M| && NextFits(r.b.limits, M[r.next]) && AllThere(r, M[r.next])
    ensures Read(r).1 == Done && Read(r).0.transcript == r.transcript + [Canon(M[r.next], r.next)]
    decreases |r.wire|, Backlog(r), Left(r)
  {
    hide Turn, InTune, Calm, CanGet, NextFits, Canon, SlotHas;
    TurnOk(r);
    TurnInTune(r, M);
    var m := M[r.next];
    var (r', st) := Turn(r);
    assert CanGet(r, 0);
    TurnKeeps(r, M, 0);
    forall j: nat | j < Extent(m)
      ensures st == Continue ==> CanGet(r', j)
      ensures st == WantRead ==> SlotHas(r'.b, j)
    {
      assert CanGet(r, j);
      TurnKeeps(r, M, j);
    }
    if st == WantRead {
      TunedIsFaithful(r', M);
      AllBuffered(r'.b, M, r'.next);
      assert false;
    } else if st == Continue {
      TurnGoesOn(r);
      ReadsAllThere(r', M);
    } else {
      ReadDelivers(r, M);
    }
  }

  // ---------- More datagrams behind

  function More(r: Receiver, more: seq<seq<Record>>): Receiver
  {
    r.(wire := r.wire + more)
  }

  lemma FetchWithMore(r: Receiver, more: seq<seq<Record>>)
    requires Fetch(r).1
    ensures Fetch(More(r, more)) == (More(Fetch(r).0, more), true)
  {
    if r.wire != [] {
      assert (r.wire + more)[0] == r.wire[0] && (r.wire + more)[1..] == r.wire[1..] + more;
    }
  }

  lemma TakeRecordWithMore(r: Receiver, more: seq<seq<Record>>)
    requires r.datagram != []
    ensures TakeRecord(More(r, more)) == (More(TakeRecord(r).0, more), TakeRecord(r).1)
  {
    hide KeepFuture;
  }

  lemma GetNextWithMore(r: Receiver, more: seq<seq<Record>>)
    requires GetNext(r).1 != WantRead
    ensures GetNext(More(r, more)) == (More(GetNext(r).0, more), GetNext(r).1)
  {
    hide Fetch, TakeRecord;
    if !CutOff(r) {
      FetchWithMore(r, more);
      if Fetch(r).0.datagram != [] {
        TakeRecordWithMore(Fetch(r).0, more);
      }
    }
  }

  lemma UpdateWithMore(r: Receiver, more: seq<seq<Record>>)
    requires ReceiverOk(r) && r.hsLen <= |r.content|
    ensures Update(More(r, more)) == More(Update(r), more)
  {
  }

  lemma ObtainWithMore(r: Receiver, more: seq<seq<Record>>)
    requires ReceiverOk(r) && Obtain(r).1 != WantRead
    ensures Obtain(More(r, more)) == (More(Obtain(r).0, more), Obtain(r).1)
  {
    hide GetNext, Loadable, ReceiverOk;
    var c := Consume(r);
    assert Consume(More(r, more)) == More(c, more);
    if GetNext(c).1 != WantRead {
      GetNextWithMore(c, more);
    }
  }

  lemma HandleWithMore(r: Receiver, more: seq<seq<Record>>)
    requires ReceiverOk(r)
    ensures Handle(More(r, more)) == (More(Handle(r).0, more), Handle(r).1)
  {
    hide BufferFragment, Judge, JudgeAlert;
  }

  lemma TurnWithMore(r: Receiver, more: seq<seq<Record>>)
    requires ReceiverOk(r) && Turn(r).1 != WantRead
    ensures ReceiverOk(More(r, more)) && Turn(More(r, more)) == (More(Turn(r).0, more), Turn(r).1)
  {
    hide Obtain, Handle;
    ObtainOk(r);
    ObtainOk(More(r, more));
    ObtainWithMore(r, more);
    if Obtain(r).1 == Done {
      HandleWithMore(Obtain(r).0, more);
    }
  }

  /** A call of read that does not run out of datagrams is the same with more of them. */
  lemma {:induction false} ReadWithMore(r: Receiver, more: seq<seq<Record>>)
    requires ReceiverOk(r) && Read(r).1 != WantRead
    ensures ReceiverOk(More(r, more)) && Read(More(r, more)) == (More(Read(r).0, more), Read(r).1)
    decreases |r.wire|, Backlog(r), Left(r)
  {
    hide Turn, ReceiverOk;
    TurnOk(r);
    TurnWithMore(r, more);
    var r' := Turn(r).0;
    TurnOk(More(r, more));
    if Turn(r).1 == Continue {
      TurnGoesOn(r);
      TurnGoesOn(More(r, more));
      ReadWithMore(r', more);
    } else if Turn(r).1 == Done && r'.kind == Handshake {
      UpdateWithMore(r', more);
    }
  }

  /** The receiver as if only the first k of the datagrams had arrived. */
  function First(r: Receiver, k: nat): Receiver
    requires k <= |r.wire|
  {
    r.(wire := r.wire[..k])
  }

  /** Progress. When all bytes of the next message are buffered, or in fragments in the
      first k datagrams, in whatever order, among whatever else and behind records that are
      dropped, then the call of read hands up the message, as long as it fits into the
      buffer and nothing up to there ends reading: no fragment of the next message is ever
      evicted or lost. */
  lemma {:induction false} ReadProgress(r: Receiver, M: seq<Message>, k: nat)
    requires ReceiverOk(r) && k <= |r.wire|
    requires InTune(First(r, k), M) && Calm(First(r, k)) && !r.expectCcs
    requires r.next < |M| && NextFits(r.b.limits, M[r.next]) && AllThere(First(r, k), M[r.next])
    ensures Read(r).1 == Done && Read(r).0.transcript == r.transcript + [Canon(M[r.next], r.next)]
  {
    hide InTune, Calm, NextFits, AllThere, Canon, Read;
    var q := First(r, k);
    assert ReceiverOk(q);
    ReadsAllThere(q, M);
    ReadWithMore(q, r.wire[k..]);
    assert r.wire[..k] + r.wire[k..] == r.wire;
    assert More(q, r.wire[k..]) == r;
  }

  // ---------- In a run

  lemma TurnSettles(r: Receiver)
    requires ReceiverOk(r)
    ensures Settled(Turn(r).0)
  {
    var c := Consume(r);
    GetNextSame(c);
    ObtainOk(r);
    var (r1, st) := Obtain(r);
    if st == Done {
      HandleOk(r1);
    }
  }

  lemma {:induction false} ReadSettles(r: Receiver)
    requires ReceiverOk(r)
    ensures Settled(Read(r).0)
    decreases |r.wire|, Backlog(r), Left(r)
  {
    hide Turn, ReceiverOk;
    TurnSettles(r);
    TurnOk(r);
    if Turn(r).1 == Continue {
      TurnGoesOn(r);
      ReadSettles(Turn(r).0);
    }
  }

  lemma {:induction false} RunSettled(r: Receiver, actions: seq<Action>, n: nat)
    requires ReceiverOk(r) && Settled(r) && n <= |actions|
    ensures Settled(Run(r, actions, n).0)
  {
    hide ReceiverOk, Read;
    if n > 0 {
      RunSettled(r, actions, n - 1);
      var q := Run(r, actions, n - 1).0;
      if actions[n - 1].ReadMessage? {
        ReadSettles(q);
      }
    }
  }

  /** All of the next message is there once k datagrams are read, and nothing up to there
      ends reading. */
  predicate Expects(r: Receiver, M: seq<Message>, k: nat)
  {
    && k <= |r.wire| && !r.expectCcs && Plain(First(r, k))
    && r.next < |M| && NextFits(r.b.limits, M[r.next]) && AllThere(First(r, k), M[r.next])
  }

  lemma FirstInTune(r: Receiver, M: seq<Message>, k: nat)
    requires InTune(r, M) && k <= |r.wire|
    ensures InTune(First(r, k), M)
  {
  }

  /** Progress in a run: whatever happened before, a read that finds all of the next
      message arrived hands it up. */
  lemma {:induction false} RunProgress(
      limits: Limits, start: nat, epoch: nat, actions: seq<Action>, n: nat, M: seq<Message>, k: nat)
    requires Sendable(M) && start <= |M| && n < |actions| && ActionsOk(actions, M) && actions[n] == ReadMessage
    ensures ReceiverOk(Start(limits, start, epoch))
    ensures var (r, sts) := Run(Start(limits, start, epoch), actions, n);
      Expects(r, M, k) ==>
        var (r', sts') := Run(Start(limits, start, epoch), actions, n + 1);
        sts' == sts + [Done] && r'.transcript == r.transcript + [Canon(M[r.next], r.next)]
  {
    hide InTune, Plain, NextFits, AllThere, Canon, Read, ReceiverOk, ActionsOk, Sendable;
    StartOk(limits, start, epoch);
    OrderedDelivery(limits, start, epoch, actions, n, M);
    RunSettled(Start(limits, start, epoch), actions, n);
    var r := Run(Start(limits, start, epoch), actions, n).0;
    if Expects(r, M, k) {
      FirstInTune(r, M, k);
      ReadProgress(r, M, k);
    }
  }

  // ---------- A datagram that ends in the middle of a record header

  /** Nothing is left of the record at hand, and the rest of its datagram is too short for
      a record. */
  predicate Stuck(r: Receiver)
  {
    CutOff(r) && Rest(r.content, r.hsLen) == []
  }

  /** That is what makes a turn fail with an internal error, and nothing else does. */
  lemma InternalErrorIffStuck(r: Receiver)
    requires ReceiverOk(r)
    ensures Turn(r).1 == InternalError <==> Stuck(r)
  {
    hide Numbered, Obtain, Handle;
    ObtainErrors(r);
    ObtainOk(r);
    if Obtain(r).1 == Done {
      HandleErrors(Obtain(r).0);
    }
  }

  lemma ObtainErrors(r: Receiver)
    requires ReceiverOk(r)
    ensures Obtain(r).1 == InternalError <==> Stuck(r)
  {
    hide GetNext, Loadable;
    GetNextOk(Consume(r));
  }

  lemma HandleErrors(r: Receiver)
    requires ReceiverOk(r)
    ensures Handle(r).1 != InternalError
  {
    if r.kind == Handshake && |r.content| >= HDR && HeaderOk(r.content) {
      BufferFragmentErrors(r.b, r.next, r.content);
    }
  }

  /** From then on every call of read fails so, whatever arrives: the bytes are not dropped
      as an invalid record. */
  lemma {:induction false} StuckForEver(r: Receiver, actions: seq<Action>, n: nat)
    requires ReceiverOk(r) && Stuck(r) && n <= |actions|
    ensures var (r', sts) := Run(r, actions, n);
      && Stuck(r') && r'.transcript == r.transcript
      && forall st :: st in sts ==> st == InternalError
  {
    hide ReceiverOk, Turn, Rest;
    if n > 0 {
      StuckForEver(r, actions, n - 1);
      var q := Run(r, actions, n - 1).0;
      if actions[n - 1].ReadMessage? {
        StuckRead(q);
      }
    }
  }

  lemma StuckRead(r: Receiver)
    requires ReceiverOk(r) && Stuck(r)
    ensures var (r', st) := Read(r);
      st == InternalError && Stuck(r') && r'.transcript == r.transcript
  {
    var c := Consume(r);
    assert Obtain(r) == (c, InternalError);
  }

  lemma TunedIsFaithful(r: Receiver, M: seq<Message>)
    requires ReceiverOk(r) && InTune(r, M)
    ensures Ok(r.b) && Faithful(r.b, M, r.next)
  {
  }
}
