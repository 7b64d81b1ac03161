/** Why the handshake layer sees the messages of the sender, in order and byte for byte,
    and runs of the receiver. */
module DtlsDelivery {
  import opened Bytes
  import opened Reassembly
  import opened DtlsReading

  /** Wherever the receiver looks for a message in the content of a record, skipping the
      length of the whole message each time, there is a slice of a message of the sender. */
  predicate InSync(s: bytes, M: seq<Message>)
    decreases |s|
  {
    s == [] || (IsSlice(s, M) && (HDR + TotalLen(s) < |s| ==> InSync(s[HDR + TotalLen(s)..], M)))
  }

  predicate RecordOk(rec: Record, M: seq<Message>)
  {
    rec.kind == Handshake && rec.header == WellFormed && rec.authentic ==> InSync(rec.content, M)
  }

  predicate RecordsOk(rs: seq<Record>, M: seq<Message>)
  {
    forall i :: 0 <= i < |rs| ==> RecordOk(rs[i], M)
  }

  predicate WireOk(wire: seq<seq<Record>>, M: seq<Message>)
  {
    forall i :: 0 <= i < |wire| ==> RecordsOk(wire[i], M)
  }

  /** What is buffered and what is to come stems from M. */
  predicate Tuned(r: Receiver, M: seq<Message>)
  {
    && Sendable(M) && Faithful(r.b, M, r.next) && RecordsOk(r.datagram, M) && WireOk(r.wire, M)
    && (r.b.future.Some? ==> RecordOk(r.b.future.value, M))
  }

  /** And so does what is left of the record at hand. */
  predicate InTune(r: Receiver, M: seq<Message>)
  {
    Tuned(r, M) && (r.kind == Handshake ==> InSync(Rest(r.content, r.hsLen), M))
  }

  /** The record at hand is still to be looked at. */
  predicate AtHand(r: Receiver, M: seq<Message>)
  {
    Tuned(r, M) && (r.kind == Handshake ==> r.content != [] && InSync(r.content, M))
  }

  lemma RestInSync(s: bytes, M: seq<Message>)
    requires s != [] && InSync(s, M)
    ensures |s| >= HDR && HeaderOk(s) && IsSlice(s, M) && InSync(Rest(s, HDR + TotalLen(s)), M)
  {
  }

  lemma SameSlots(b: Buffers, b': Buffers, M: seq<Message>, next: nat)
    requires b.slots == b'.slots
    ensures Faithful(b, M, next) == Faithful(b', M, next)
  {
  }

  lemma FetchTuned(r: Receiver, M: seq<Message>)
    requires Tuned(r, M)
    ensures var r' := Fetch(r).0; Tuned(r', M) && r'.content == r.content && r'.kind == r.kind
  {
    SameSlots(r.b, Fetch(r).0.b, M, r.next);
    hide Faithful, Sendable, RecordOk;
  }

  lemma TakeRecordTuned(r: Receiver, M: seq<Message>)
    requires Tuned(r, M) && r.datagram != []
    ensures var (r', st) := TakeRecord(r);
      && Tuned(r', M) && (st == Done ==> r'.kind == ApplicationData || r'.content != [])
      && (st == Done && r'.kind == Handshake ==> InSync(r'.content, M))
      && (st != Done ==> r'.content == r.content && r'.kind == r.kind)
  {
    SameSlots(r.b, TakeRecord(r).0.b, M, r.next);
    assert RecordOk(r.datagram[0], M) && RecordsOk(r.datagram[1..], M);
    hide Faithful, Sendable, RecordsOk, WireOk, InSync;
    NoneOk(M);
  }

  lemma NoneOk(M: seq<Message>)
    ensures RecordsOk([], M)
  {
  }

  lemma GetNextInTune(r: Receiver, M: seq<Message>)
    requires Tuned(r, M)
    ensures var (r', st) := GetNext(r);
      && Tuned(r', M) && (st == Done ==> AtHand(r', M)) && (st != Done ==> r'.content == r.content && r'.kind == r.kind)
  {
    hide Tuned, Fetch, TakeRecord, InSync;
    FetchTuned(r, M);
    var (r1, ok) := Fetch(r);
    if ok && r1.datagram != [] {
      TakeRecordTuned(r1, M);
    }
  }

  lemma LoadMessageInTune(r: Receiver, M: seq<Message>)
    requires ReceiverOk(r) && Tuned(r, M) && LoadMessage(r).1
    ensures AtHand(LoadMessage(r).0, M)
  {
    if !r.expectCcs {
      LoadableIsCanon(r.b, M, r.next);
      CanonIsSlice(M, r.next);
    }
  }

  lemma ObtainInTune(r: Receiver, M: seq<Message>)
    requires ReceiverOk(r) && InTune(r, M)
    ensures var (r', st) := Obtain(r); if st == Done then AtHand(r', M) else InTune(r', M)
  {
    hide InSync, Faithful, GetNext, LoadMessage;
    var c := Consume(r);
    NothingInSync(M);
    if c.content == [] {
      GetNextInTune(c, M);
      if LoadMessage(c).1 {
        LoadMessageInTune(c, M);
      }
    }
  }

  lemma NothingInSync(M: seq<Message>)
    ensures InSync([], M)
  {
  }

  lemma HandleHandshakeInTune(r: Receiver, M: seq<Message>)
    requires ReceiverOk(r) && AtHand(r, M) && r.kind == Handshake
    ensures var (r', st) := Handle(r);
      && InTune(r', M)
      && (st == Done ==>
            r.next < |M| && r'.hsLen <= |r'.content| && r'.content[..r'.hsLen] == Canon(M[r.next], r.next))
  {
    hide InSync, IsSlice, Ok, Numbered, Faithful, BufferFragment, Canon, RecordsOk, WireOk, RecordOk, Sendable,
      HeaderOk;
    RestInSync(r.content, M);
    BufferFragmentFaithful(r.b, M, r.next, r.content);
    BufferFragmentErrors(r.b, r.next, r.content);
    if Judge(r.content, r.next) == Done {
      WholeIsCanon(r.content, M);
      DoneIsNext(r.content, M, r.next);
    }
  }

  lemma DoneIsNext(s: bytes, M: seq<Message>, next: nat)
    requires IsSlice(s, M) && Judge(s, next) == Done
    ensures MsgSeq(s) == next < |M| && HDR + TotalLen(s) <= |s|
  {
  }

  lemma HandleInTune(r: Receiver, M: seq<Message>)
    requires ReceiverOk(r) && AtHand(r, M)
    ensures var (r', st) := Handle(r);
      && InTune(r', M)
      && (st == Done && r.kind == Handshake ==>
            r.next < |M| && r'.hsLen <= |r'.content| && r'.content[..r'.hsLen] == Canon(M[r.next], r.next))
  {
    hide InSync, Faithful, ReceiverOk, Canon;
    if r.kind == Handshake {
      HandleHandshakeInTune(r, M);
    }
  }

  lemma TurnInTune(r: Receiver, M: seq<Message>)
    requires ReceiverOk(r) && InTune(r, M)
    ensures var (r', st) := Turn(r);
      && InTune(r', M)
      && (st == Done && r'.kind == Handshake ==>
            r'.next < |M| && r'.hsLen <= |r'.content| && r'.content[..r'.hsLen] == Canon(M[r'.next], r'.next))
  {
    hide Obtain, Handle, InTune, AtHand, Canon;
    ObtainInTune(r, M);
    ObtainOk(r);
    var (r1, st) := Obtain(r);
    if st == Done {
      HandleOk(r1);
      HandleInTune(r1, M);
    }
  }

  lemma UpdateInTune(r: Receiver, M: seq<Message>)
    requires ReceiverOk(r) && InTune(r, M) && r.hsLen <= |r.content|
    ensures InTune(Update(r), M)
  {
    AdvanceFaithful(r.b, M, r.next);
    hide Faithful, InSync;
  }

  /** One call hands up the next message of the sender, or nothing. */
  lemma {:induction false} ReadDelivers(r: Receiver, M: seq<Message>)
    requires ReceiverOk(r) && InTune(r, M)
    ensures var (r', st) := Read(r);
      && ReceiverOk(r') && InTune(r', M)
      && if st == Done && r'.kind == Handshake
         then r.next < |M| && r'.next == r.next + 1 && r'.transcript == r.transcript + [Canon(M[r.next], r.next)]
         else r'.next == r.next && r'.transcript == r.transcript
    decreases |r.wire|, Backlog(r), Left(r)
  {
    hide Turn, InTune, Canon, ReceiverOk;
    TurnOk(r);
    TurnInTune(r, M);
    var (r', st) := Turn(r);
    if st == Continue {
      TurnGoesOn(r);
      ReadDelivers(r', M);
    } else if st == Done && r'.kind == Handshake {
      UpdateOk(r');
      UpdateInTune(r', M);
    }
  }

  // ---------- Runs

  /** A datagram arrives, or the handshake layer does something: it reads, moves to or
      from a ChangeCipherSpec state, switches to the next epoch, or has all messages of
      a flight. */
  datatype Action = Arrive(datagram: seq<Record>) | ReadMessage | ExpectCcs(on: bool) | SwitchEpoch | FlightDone

  function Act(r: Receiver, a: Action): (Receiver, seq<Status>)
    requires ReceiverOk(r)
  {
    match a
    case Arrive(datagram) => (r.(wire := r.wire + [datagram]), [])
    case ReadMessage => var (r', st) := Read(r); (r', [st])
    case ExpectCcs(on) => (r.(expectCcs := on), [])
    case SwitchEpoch => (r.(epoch := r.epoch + 1), [])
    case FlightDone => (Clear(r), [])
  }

  /** mbedtls_ssl_recv_flight_completed */
  function Clear(r: Receiver): Receiver
  {
    r.(seenCcs := false, b := Buffers(NoSlots, None, r.b.limits))
  }

  lemma ActOk(r: Receiver, a: Action)
    requires ReceiverOk(r)
    ensures ReceiverOk(Act(r, a).0) && Act(r, a).0.b.limits == r.b.limits
  {
    match a
    case ReadMessage => ReadOk(r);
    case FlightDone => SlotsSizeZero(NoSlots);
    case _ =>
  }

  /** The receiver after n actions, and how the calls to read ended. */
  function Run(r: Receiver, actions: seq<Action>, n: nat): (s: (Receiver, seq<Status>))
    requires ReceiverOk(r) && n <= |actions|
    ensures ReceiverOk(s.0)
  {
    if n == 0 then (r, [])
    else
      var (r1, sts) := Run(r, actions, n - 1);
      var (r2, more) := Act(r1, actions[n - 1]);
      ActOk(r1, actions[n - 1]);
      (r2, sts + more)
  }

  /** The receiver after all actions, from the start. */
  function Ran(limits: Limits, start: nat, epoch: nat, actions: seq<Action>): (Receiver, seq<Status>)
  {
    StartOk(limits, start, epoch);
    Run(Start(limits, start, epoch), actions, |actions|)
  }

  predicate ActionsOk(actions: seq<Action>, M: seq<Message>)
  {
    forall i :: 0 <= i < |actions| && actions[i].Arrive? ==> RecordsOk(actions[i].datagram, M)
  }

  function Canons(M: seq<Message>, start: nat, n: nat): (r: seq<bytes>)
    requires start + n <= |M|
    ensures |r| == n && forall i :: 0 <= i < n ==> r[i] == Canon(M[start + i], start + i)
  {
    seq(n, i requires 0 <= i < n => Canon(M[start + i], start + i))
  }

  lemma ActInTune(r: Receiver, a: Action, M: seq<Message>)
    requires ReceiverOk(r) && InTune(r, M) && (a.Arrive? ==> RecordsOk(a.datagram, M))
    ensures InTune(Act(r, a).0, M)
  {
    hide InSync, RecordsOk;
    match a
    case ReadMessage => ReadDelivers(r, M);
    case _ =>
  }

  lemma StartInTune(limits: Limits, start: nat, epoch: nat, M: seq<Message>)
    requires Sendable(M)
    ensures InTune(Start(limits, start, epoch), M)
  {
  }

  /** Ordered delivery. Whatever datagrams arrive, lost, duplicated, reordered, cut and
      overlapping in any way, among records that are not valid and records of other
      kinds, as long as the receiver finds slices of the sender's messages M wherever it
      looks, and whatever the handshake layer does: the messages that enter the transcript
      are a contiguous run of M, in order, each once and byte for byte as if it had never
      been fragmented. */
  lemma {:induction false} OrderedDelivery(
      limits: Limits, start: nat, epoch: nat, actions: seq<Action>, n: nat, M: seq<Message>)
    requires Sendable(M) && start <= |M| && n <= |actions| && ActionsOk(actions, M)
    ensures ReceiverOk(Start(limits, start, epoch))
    ensures var r := Run(Start(limits, start, epoch), actions, n).0;
      InTune(r, M) && r.next == start + |r.transcript| <= |M| && r.transcript == Canons(M, start, |r.transcript|)
  {
    hide InTune, Canon, ReceiverOk, Read, Sendable;
    StartOk(limits, start, epoch);
    StartInTune(limits, start, epoch, M);
    if n > 0 {
      OrderedDelivery(limits, start, epoch, actions, n - 1, M);
      var r := Run(Start(limits, start, epoch), actions, n - 1).0;
      ActInTune(r, actions[n - 1], M);
      if actions[n - 1].ReadMessage? {
        ReadDelivers(r, M);
      }
    }
  }
}
