/** The receiver of a flight gets its messages back. */
module FlightDelivery {
  import opened Bytes
  import opened Flight
  import Reassembly

  /** The handshake messages of a flight are the sender's messages from `first` on. */
  predicate Carries(it: Item, M: seq<Reassembly.Message>, seqNo: nat)
    requires Reassembly.Sendable(M) && seqNo < |M|
  {
    !it.ccs && it.raw == Reassembly.Canon(M[seqNo], seqNo)
  }

  /** What goes out is what the receiver takes for granted: a slice of the message. */
  lemma {:induction false} FragmentIsSlice(it: Item, M: seq<Reassembly.Message>, seqNo: nat, off: nat, len: nat)
    requires Reassembly.Sendable(M) && seqNo < |M| && Carries(it, M, seqNo)
    requires HDR + off + len <= |it.raw|
    ensures var s := Fragment(it.raw, off, len);
      && Reassembly.IsSlice(s, M) && Reassembly.MsgSeq(s) == seqNo
      && Reassembly.FragOff(s) == off && Reassembly.FragLen(s) == len && |s| == HDR + len
  {
    var s, m := Fragment(it.raw, off, len), M[seqNo];
    var c := it.raw;
    Reassembly.CanonIsSlice(M, seqNo);
    U24RoundTrip(off);
    U24RoundTrip(len);
    assert forall k :: 0 <= k < 6 ==> s[k] == c[k];
    assert s[6..9] == PutU24(off) && s[9..12] == PutU24(len);
    assert forall k :: 0 <= k < 3 ==> s[6 + k] == s[6..9][k] && s[9 + k] == s[9..12][k];
    assert c[HDR..] == m.body;
    assert s[HDR..HDR + len] == c[HDR + off..HDR + off + len] == m.body[off..off + len];
  }

  /** The fragments of message `item` in the order they were written. */
  function FragmentsOf(log: seq<Entry>, item: nat): seq<bytes>
  {
    if log == [] then []
    else FragmentsOf(log[..|log| - 1], item) + if log[|log| - 1].item == item then [log[|log| - 1].payload] else []
  }

  predicate Slices(ss: seq<bytes>, M: seq<Reassembly.Message>, seqNo: nat)
  {
    forall s :: s in ss ==> Reassembly.IsSlice(s, M) && Reassembly.MsgSeq(s) == seqNo
  }

  predicate Reaches(s: bytes, j: nat)
  {
    |s| >= HDR && Reassembly.FragOff(s) <= j < Reassembly.FragOff(s) + Reassembly.FragLen(s)
  }

  predicate CoveredBy(ss: seq<bytes>, j: nat)
  {
    exists s :: s in ss && Reaches(s, j)
  }

  lemma CoveredAppend(ss: seq<bytes>, x: bytes, j: nat)
    requires CoveredBy(ss, j) || Reaches(x, j)
    ensures CoveredBy(ss + [x], j)
  {
    if Reaches(x, j) {
      assert x in ss + [x];
    } else {
      var s :| s in ss && Reaches(s, j);
      assert s in ss + [x];
    }
  }

  predicate Behind(at: (nat, nat), item: nat, j: nat)
  {
    item < at.0 || (item == at.0 && j < at.1)
  }

  predicate CoversUpTo(ss: seq<bytes>, at: (nat, nat), item: nat, len: nat)
  {
    forall j: nat :: j < len && Behind(at, item, j) ==> CoveredBy(ss, j)
  }

  /** The fragments written for a message are slices of it and cover what is behind the position. */
  lemma {:induction false} FragmentsCover(
      flight: seq<Item>, log: seq<Entry>, item: nat, M: seq<Reassembly.Message>, seqNo: nat)
    requires FlightOk(flight) && Position(flight, log).Some? && item < |flight|
    requires Reassembly.Sendable(M) && seqNo < |M| && Carries(flight[item], M, seqNo)
    ensures Slices(FragmentsOf(log, item), M, seqNo)
    ensures CoversUpTo(FragmentsOf(log, item), Position(flight, log).value, item, |M[seqNo].body|)
    decreases |log|
  {
    hide Reassembly.IsSlice, Fragment, CoveredBy;
    if log != [] {
      var before, e := log[..|log| - 1], log[|log| - 1];
      var at, now, len := Position(flight, before).value, Position(flight, log).value, |M[seqNo].body|;
      FragmentsCover(flight, before, item, M, seqNo);
      if e.item != item {
        assert FragmentsOf(log, item) == FragmentsOf(before, item);
        assert forall j: nat :: Behind(now, item, j) ==> Behind(at, item, j);
      } else {
        FragmentIsSlice(flight[item], M, seqNo, e.off, e.len);
        forall j: nat | j < len && Behind(now, item, j)
          ensures CoveredBy(FragmentsOf(log, item), j)
        {
          assert Behind(at, item, j) || Reaches(e.payload, j);
          CoveredAppend(FragmentsOf(before, item), e.payload, j);
        }
      }
    }
  }

  lemma {:induction false} GatherFaithful(slot: Reassembly.Slot, ss: seq<bytes>, M: seq<Reassembly.Message>, seqNo: nat)
    requires Reassembly.AllForSlot(slot, ss) && seqNo < |M| && Slices(ss, M, seqNo)
    requires Reassembly.SlotFaithful(slot, M[seqNo], seqNo)
    ensures Reassembly.SlotFaithful(Reassembly.Gather(slot, ss), M[seqNo], seqNo)
    decreases |ss|
  {
    if ss != [] {
      if !slot.complete {
        Reassembly.AcceptFaithful(slot, ss[0], M);
      }
      GatherFaithful(if slot.complete then slot else Reassembly.Accept(slot, ss[0]), ss[1..], M, seqNo);
    }
  }

  lemma {:induction false} GatherKeepsComplete(slot: Reassembly.Slot, ss: seq<bytes>)
    requires Reassembly.AllForSlot(slot, ss) && slot.complete
    ensures Reassembly.Gather(slot, ss) == slot
    decreases |ss|
  {
    if ss != [] {
      GatherKeepsComplete(slot, ss[1..]);
    }
  }

  lemma {:induction false} GatherAllHave(slot: Reassembly.Slot, ss: seq<bytes>)
    requires Reassembly.AllForSlot(slot, ss) && slot.fragmented && (slot.complete <==> Reassembly.AllHave(slot.have))
    ensures var r := Reassembly.Gather(slot, ss); r.complete <==> Reassembly.AllHave(r.have)
    decreases |ss|
  {
    if ss != [] {
      GatherAllHave(if slot.complete then slot else Reassembly.Accept(slot, ss[0]), ss[1..]);
    }
  }

  lemma {:induction false} GatherCovered(slot: Reassembly.Slot, ss: seq<bytes>)
    requires Reassembly.AllForSlot(slot, ss) && ss != [] && !slot.complete
    requires forall j: nat :: j < |slot.have| ==> CoveredBy(ss, j)
    requires slot.fragmented ==> |slot.have| > 0 && forall j :: 0 <= j < |slot.have| ==> !slot.have[j]
    requires !slot.fragmented ==> !Reassembly.IsFragment(ss[0])
    ensures var r := Reassembly.Gather(slot, ss); r.complete && Reassembly.AllHave(r.have)
  {
    if slot.fragmented {
      assert !slot.have[0];
      forall j: nat | j < |slot.have|
        ensures Reassembly.Covered(ss, j)
      {
        assert CoveredBy(ss, j);
        var s :| s in ss && Reaches(s, j);
      }
      Reassembly.CompleteIffCovered(slot, ss);
      GatherAllHave(slot, ss);
    } else {
      assert Reassembly.FragOff(ss[0]) == 0 && Reassembly.FragLen(ss[0]) == |slot.have|;
      GatherKeepsComplete(Reassembly.Accept(slot, ss[0]), ss[1..]);
    }
  }

  lemma FreshIsFaithful(s: bytes, M: seq<Reassembly.Message>, seqNo: nat)
    requires Reassembly.Sendable(M) && Reassembly.IsSlice(s, M) && Reassembly.MsgSeq(s) == seqNo
    ensures Reassembly.SlotFaithful(Reassembly.FreshSlot(s), M[seqNo], seqNo)
  {
    Reassembly.SlicePrefix(s, M);
  }

  /** Put into a fresh slot one after the other, the fragments make up the message. */
  predicate GivesBack(got: seq<bytes>, message: bytes)
  {
    && got != [] && |got[0]| >= HDR && Reassembly.AllForSlot(Reassembly.FreshSlot(got[0]), got)
    && var slot := Reassembly.Gather(Reassembly.FreshSlot(got[0]), got);
       slot.complete && slot.header + slot.body == message
  }

  lemma AllInSlot(got: seq<bytes>, M: seq<Reassembly.Message>, seqNo: nat)
    requires got != [] && Slices(got, M, seqNo) && seqNo < |M|
    ensures |got[0]| >= HDR && Reassembly.AllForSlot(Reassembly.FreshSlot(got[0]), got)
    ensures Reassembly.TotalLen(got[0]) == |M[seqNo].body|
  {
    assert got[0] in got;
  }

  /** Once a flight is out, its fragments give back each message, in whatever order
      and however often they arrive, as long as none of them is missing. */
  lemma {:induction false} FlightReassembles(
      flight: seq<Item>, log: seq<Entry>, item: nat, M: seq<Reassembly.Message>, seqNo: nat, got: seq<bytes>)
    requires FlightOk(flight) && Position(flight, log) == Some((|flight|, 0)) && item < |flight|
    requires Reassembly.Sendable(M) && seqNo < |M| && Carries(flight[item], M, seqNo)
    requires got != [] && forall s :: s in got <==> s in FragmentsOf(log, item)
    ensures Slices(got, M, seqNo) && GivesBack(got, Reassembly.Canon(M[seqNo], seqNo))
  {
    hide Position, FragmentsOf, Carries, CoveredBy, GivesBack;
    FragmentsCover(flight, log, item, M, seqNo);
    SameCover(FragmentsOf(log, item), got, (|flight|, 0), item, |M[seqNo].body|);
    Reassembles(got, M, seqNo);
  }

  lemma SameCover(ss: seq<bytes>, got: seq<bytes>, at: (nat, nat), item: nat, len: nat)
    requires CoversUpTo(ss, at, item, len) && item < at.0 && forall s :: s in got <==> s in ss
    ensures forall j: nat :: j < len ==> CoveredBy(got, j)
  {
    forall j: nat | j < len
      ensures CoveredBy(got, j)
    {
      assert Behind(at, item, j);
      var s :| s in ss && Reaches(s, j);
      assert s in got;
    }
  }

  lemma Reassembles(got: seq<bytes>, M: seq<Reassembly.Message>, seqNo: nat)
    requires Reassembly.Sendable(M) && got != [] && Slices(got, M, seqNo) && seqNo < |M|
    requires forall j: nat :: j < |M[seqNo].body| ==> CoveredBy(got, j)
    ensures GivesBack(got, Reassembly.Canon(M[seqNo], seqNo))
  {
    assert got[0] in got;
    AllInSlot(got, M, seqNo);
    var slot, m := Reassembly.FreshSlot(got[0]), M[seqNo];
    FreshIsFaithful(got[0], M, seqNo);
    GatherCovered(slot, got);
    GatherFaithful(slot, got, M, seqNo);
    var full := Reassembly.Gather(slot, got);
    assert full.body == m.body;
  }
}
