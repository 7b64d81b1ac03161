/** Several handshake fragments in one record: what the receiver makes of them when it
    skips the length of the whole message after each one. */
module DtlsPacking {
  import opened Bytes
  import opened Reassembly
  import opened DtlsReading
  import opened DtlsDelivery

  predicate Fragments(fs: seq<bytes>)
  {
    forall i :: 0 <= i < |fs| ==> |fs[i]| >= HDR && HeaderOk(fs[i]) && |fs[i]| == HDR + FragLen(fs[i])
  }

  function Concat(fs: seq<bytes>): bytes
  {
    if fs == [] then [] else fs[0] + Concat(fs[1..])
  }

  /** One of the fragments starts at position p. */
  predicate IsStart(fs: seq<bytes>, p: nat)
  {
    fs != [] && (p == 0 || (p >= |fs[0]| && IsStart(fs[1..], p - |fs[0]|)))
  }

  /** Whenever the receiver looks for a message in s, which begins at position `at` of the
      record, one of the fragments starts there. */
  predicate LooksAtStarts(s: bytes, at: nat, fs: seq<bytes>)
    decreases |s|
  {
    s != [] ==>
      && IsStart(fs, at)
      && (|s| >= HDR ==> LooksAtStarts(Rest(s, HDR + TotalLen(s)), at + HDR + TotalLen(s), fs))
  }

  /** How often it looks. */
  function Looks(s: bytes): nat
    decreases |s|
  {
    if s == [] then 0 else if |s| < HDR then 1 else 1 + Looks(Rest(s, HDR + TotalLen(s)))
  }

  /** The length of a fragment with its header, and of the message with its header. */
  datatype Extent = Extent(size: nat, total: nat)

  function Extents(fs: seq<bytes>): (es: seq<Extent>)
    requires Fragments(fs)
    ensures |es| == |fs|
  {
    seq(|fs|, i requires 0 <= i < |fs| => Extent(|fs[i]|, HDR + TotalLen(fs[i])))
  }

  predicate ExtentsOk(es: seq<Extent>)
  {
    forall i :: 0 <= i < |es| ==> 0 < es[i].size <= es[i].total
  }

  /** How many fragments n bytes are, or all if there are not so many bytes; None if n
      bytes end inside a fragment. */
  function Skip(es: seq<Extent>, n: nat): (j: Option<nat>)
    ensures j.Some? ==> j.value <= |es|
    ensures j.Some? && n > 0 && es != [] ==> j.value > 0
  {
    if n == 0 || es == [] then Some(0)
    else if n < es[0].size then None
    else
      match Skip(es[1..], n - es[0].size)
      case None => None
      case Some(j) => Some(j + 1)
  }

  /** Each skip by the length of a whole message lands on the start of a fragment, or at
      the end of the record or past it. */
  predicate Lands(es: seq<Extent>)
    requires ExtentsOk(es)
    decreases |es|
  {
    es != [] ==>
      var j := Skip(es, es[0].total);
      j.Some? && Lands(es[j.value..])
  }

  lemma FrontBytes(f: bytes, rest: bytes)
    requires |f| >= HDR
    ensures TotalLen(f + rest) == TotalLen(f) && (f + rest)[|f|..] == rest
  {
  }

  lemma FrontExtents(fs: seq<bytes>)
    requires Fragments(fs) && fs != []
    ensures Fragments(fs[1..]) && Extents(fs)[0] == Extent(|fs[0]|, HDR + TotalLen(fs[0]))
    ensures Extents(fs)[1..] == Extents(fs[1..])
  {
    hide TotalLen, HeaderOk, FragLen;
  }

  lemma Front(fs: seq<bytes>)
    requires Fragments(fs) && fs != []
    ensures var s, f := Concat(fs), fs[0];
      && |s| == |f| + |Concat(fs[1..])| && |f| >= HDR && TotalLen(s) == TotalLen(f) && |f| <= HDR + TotalLen(f)
      && s[|f|..] == Concat(fs[1..])
    ensures Fragments(fs[1..]) && Extents(fs)[0] == Extent(|fs[0]|, HDR + TotalLen(fs[0]))
    ensures Extents(fs)[1..] == Extents(fs[1..])
  {
    hide TotalLen, FragLen, FragOff, Extents;
    assert HeaderOk(fs[0]);
    FrontBytes(fs[0], Concat(fs[1..]));
    FrontExtents(fs);
  }

  /** Positions in `fs` from n on are positions in `rest`. */
  ghost predicate Shifted(fs: seq<bytes>, rest: seq<bytes>, n: nat)
  {
    forall q: nat {:trigger IsStart(rest, q)} :: IsStart(fs, n + q) == IsStart(rest, q)
  }

  lemma ShiftedOnce(fs: seq<bytes>, rest: seq<bytes>, n: nat)
    requires fs != [] && n >= |fs[0]| > 0 && Shifted(fs[1..], rest, n - |fs[0]|)
    ensures Shifted(fs, rest, n)
  {
    forall q: nat
      ensures IsStart(fs, n + q) == IsStart(rest, q)
    {
      assert IsStart(fs, n + q) == IsStart(fs[1..], n - |fs[0]| + q);
    }
  }

  /** A skip inside the record lands on a start exactly when the lengths say so, and the
      receiver goes on as with a record of the fragments from there. */
  lemma {:induction false} SkipIsStart(fs: seq<bytes>, n: nat)
    requires Fragments(fs) && n < |Concat(fs)|
    ensures var j := Skip(Extents(fs), n);
      && (j.Some? <==> IsStart(fs, n))
      && (j.Some? ==> Concat(fs)[n..] == Concat(fs[j.value..]) && Shifted(fs, fs[j.value..], n))
    decreases |fs|
  {
    Front(fs);
    hide TotalLen, Fragments, Extents, Concat;
    if n == 0 {
      assert Concat(fs)[0..] == Concat(fs) && fs[0..] == fs;
    } else if n >= |fs[0]| {
      var m: nat := n - |fs[0]|;
      SkipIsStart(fs[1..], m);
      var j := Skip(Extents(fs[1..]), m);
      if j.Some? {
        TailOfTail(Concat(fs), |fs[0]|, n);
        assert fs[1..][j.value..] == fs[j.value + 1..];
        ShiftedOnce(fs, fs[j.value + 1..], n);
      }
    }
  }

  lemma TailOfTail(s: bytes, a: nat, b: nat)
    requires a <= b <= |s|
    ensures s[b..] == s[a..][b - a..]
  {
  }

  lemma {:induction false} SkipPastEnd(fs: seq<bytes>, n: nat)
    requires Fragments(fs) && n >= |Concat(fs)|
    ensures Skip(Extents(fs), n) == Some(|fs|)
    decreases |fs|
  {
    if fs != [] {
      Front(fs);
      hide TotalLen, Fragments, Extents;
      SkipPastEnd(fs[1..], n - |fs[0]|);
    }
  }

  lemma ExtentsAreOk(fs: seq<bytes>)
    requires Fragments(fs)
    ensures ExtentsOk(Extents(fs))
  {
  }

  lemma ExtentsFrom(fs: seq<bytes>, j: nat)
    requires Fragments(fs) && j <= |fs|
    ensures Fragments(fs[j..]) && Extents(fs)[j..] == Extents(fs[j..])
  {
  }

  lemma ShiftedAt(fs: seq<bytes>, rest: seq<bytes>, n: nat, at: nat)
    requires Shifted(fs, rest, n)
    ensures IsStart(fs, n + at) == IsStart(rest, at)
  {
  }

  lemma {:induction false} LooksShifted(s: bytes, at: nat, n: nat, fs: seq<bytes>, rest: seq<bytes>)
    requires Shifted(fs, rest, n)
    ensures LooksAtStarts(s, n + at, fs) == LooksAtStarts(s, at, rest)
    decreases |s|
  {
    hide TotalLen, Shifted, IsStart;
    if s != [] {
      ShiftedAt(fs, rest, n, at);
      if |s| >= HDR {
        var m := HDR + TotalLen(s);
        LooksShifted(Rest(s, m), at + m, n, fs, rest);
        assert n + at + HDR + TotalLen(s) == n + (at + m);
      }
    }
  }

  lemma LooksOnce(s: bytes, fs: seq<bytes>)
    requires |s| >= HDR && fs != []
    ensures var n := HDR + TotalLen(s);
      LooksAtStarts(s, 0, fs) == LooksAtStarts(Rest(s, n), n, fs) && Looks(s) == 1 + Looks(Rest(s, n))
  {
  }

  lemma LooksNeedStart(s: bytes, at: nat, fs: seq<bytes>)
    ensures if s == [] then LooksAtStarts(s, at, fs) && Looks(s) == 0 else LooksAtStarts(s, at, fs) ==> IsStart(fs, at)
  {
  }

  /** The first look at a record of fragments is the last if it skips all of them. */
  lemma {:induction false} LooksPastEnd(fs: seq<bytes>)
    requires Fragments(fs) && fs != [] && HDR + TotalLen(fs[0]) >= |Concat(fs)|
    ensures LooksAtStarts(Concat(fs), 0, fs) && Looks(Concat(fs)) == 1
    ensures Skip(Extents(fs), HDR + TotalLen(fs[0])) == Some(|fs|)
  {
    Front(fs);
    hide TotalLen, Fragments, Extents, Concat, Skip, LooksAtStarts, Looks, IsStart;
    var s, n := Concat(fs), HDR + TotalLen(fs[0]);
    LooksOnce(s, fs);
    LooksNeedStart(Rest(s, n), n, fs);
    SkipPastEnd(fs, n);
  }

  lemma LooksGoOn(s: bytes, n: nat, fs: seq<bytes>, rest: seq<bytes>)
    requires |s| >= HDR && fs != [] && n == HDR + TotalLen(s) && Rest(s, n) == Concat(rest) && Shifted(fs, rest, n)
    ensures LooksAtStarts(s, 0, fs) == LooksAtStarts(Concat(rest), 0, rest) && Looks(s) == 1 + Looks(Concat(rest))
  {
    hide LooksAtStarts, Looks, Rest, Concat, Shifted, TotalLen;
    LooksOnce(s, fs);
    LooksShifted(Concat(rest), 0, n, fs, rest);
  }

  lemma LooksAstray(s: bytes, n: nat, fs: seq<bytes>)
    requires |s| >= HDR && fs != [] && n == HDR + TotalLen(s) < |s| && !IsStart(fs, n)
    ensures !LooksAtStarts(s, 0, fs)
  {
    LooksOnce(s, fs);
    LooksNeedStart(s[n..], n, fs);
  }

  /** Else the second look is right where the lengths say, if at the start of a fragment. */
  lemma {:induction false} LooksWithin(fs: seq<bytes>)
    requires Fragments(fs) && fs != [] && HDR + TotalLen(fs[0]) < |Concat(fs)|
    ensures var j := Skip(Extents(fs), HDR + TotalLen(fs[0]));
      if j == None then !LooksAtStarts(Concat(fs), 0, fs)
      else
        && Fragments(fs[j.value..])
        && LooksAtStarts(Concat(fs), 0, fs) == LooksAtStarts(Concat(fs[j.value..]), 0, fs[j.value..])
        && Looks(Concat(fs)) == 1 + Looks(Concat(fs[j.value..]))
  {
    hide TotalLen, Fragments, Extents, Concat, Skip, LooksAtStarts, Looks, IsStart, Shifted;
    Front(fs);
    var s, n := Concat(fs), HDR + TotalLen(fs[0]);
    SkipIsStart(fs, n);
    var j := Skip(Extents(fs), n);
    if j.Some? {
      ExtentsFrom(fs, j.value);
      LooksGoOn(s, n, fs, fs[j.value..]);
    } else {
      LooksAstray(s, n, fs);
    }
  }

  /** The receiver looks at starts of fragments only, if and only if the lengths of the
      fragments and of their messages make every skip land. */
  lemma {:induction false} LooksAtStartsIffLands(fs: seq<bytes>)
    requires Fragments(fs)
    ensures ExtentsOk(Extents(fs)) && (LooksAtStarts(Concat(fs), 0, fs) <==> Lands(Extents(fs)))
    decreases |fs|
  {
    ExtentsAreOk(fs);
    if fs != [] {
      hide LooksAtStarts, TotalLen, Fragments, Concat, Skip, Extents;
      Front(fs);
      if HDR + TotalLen(fs[0]) >= |Concat(fs)| {
        LooksPastEnd(fs);
      } else {
        LooksWithin(fs);
      }
      var j := Skip(Extents(fs), HDR + TotalLen(fs[0]));
      if j.Some? {
        ExtentsFrom(fs, j.value);
        LooksAtStartsIffLands(fs[j.value..]);
        NothingLands();
      }
    }
  }

  lemma NothingLands()
    ensures ExtentsOk([]) && Lands([])
  {
  }

  predicate AllButLastWhole(fs: seq<bytes>)
    requires Fragments(fs)
  {
    forall i :: 0 <= i < |fs| - 1 ==> |fs[i]| == HDR + TotalLen(fs[i])
  }

  lemma WholeFrom(fs: seq<bytes>)
    requires Fragments(fs) && |fs| > 1
    ensures Fragments(fs[1..])
    ensures AllButLastWhole(fs) <==> |fs[0]| == HDR + TotalLen(fs[0]) && AllButLastWhole(fs[1..])
  {
    if |fs[0]| == HDR + TotalLen(fs[0]) && AllButLastWhole(fs[1..]) {
      forall i | 0 <= i < |fs| - 1
        ensures |fs[i]| == HDR + TotalLen(fs[i])
      {
        assert i > 0 ==> fs[i] == fs[1..][i - 1];
      }
    }
    if AllButLastWhole(fs) {
      assert forall i :: 0 <= i < |fs| - 2 ==> fs[1..][i] == fs[i + 1];
    }
  }

  lemma SkipOne(fs: seq<bytes>, n: nat)
    requires Fragments(fs) && |fs| > 1 && n >= |fs[0]| > 0
    ensures var j := Skip(Extents(fs), n);
      (j == Some(1) <==> n == |fs[0]|) && (j.Some? ==> 1 <= j.value <= |fs|)
  {
    Front(fs);
  }

  /** The receiver looks at each of the fragments, and nowhere else, if and only if all of
      them but the last are whole messages; else some are dropped, or taken for others. */
  lemma {:induction false} LooksAtAllIffWhole(fs: seq<bytes>)
    requires Fragments(fs)
    ensures (LooksAtStarts(Concat(fs), 0, fs) && Looks(Concat(fs)) == |fs|) <==> AllButLastWhole(fs)
    ensures LooksAtStarts(Concat(fs), 0, fs) ==> Looks(Concat(fs)) <= |fs|
    decreases |fs|
  {
    if fs != [] {
      hide LooksAtStarts, Looks, TotalLen, Fragments, Concat, Skip, Extents;
      Front(fs);
      var n := HDR + TotalLen(fs[0]);
      if n >= |Concat(fs)| {
        LooksPastEnd(fs);
      } else {
        LooksWithin(fs);
      }
      if |fs| == 1 {
        OneFragment(fs);
      } else {
        Front(fs[1..]);
        WholeFrom(fs);
        SkipOne(fs, n);
        hide AllButLastWhole;
        var j := Skip(Extents(fs), n);
        if j.Some? {
          ExtentsFrom(fs, j.value);
          LooksAtAllIffWhole(fs[j.value..]);
        }
      }
    }
  }

  lemma OneFragment(fs: seq<bytes>)
    requires Fragments(fs) && |fs| == 1
    ensures |Concat(fs)| == |fs[0]| && AllButLastWhole(fs)
  {
    assert fs[1..] == [];
  }

  lemma FrontOfRecord(f: bytes, rest: bytes, M: seq<Message>)
    requires IsSlice(f, M)
    ensures IsSlice(f + rest, M)
  {
    var s := f + rest;
    assert forall i :: 0 <= i < |f| ==> s[i] == f[i];
    assert s[HDR..HDR + FragLen(s)] == f[HDR..HDR + FragLen(f)];
  }

  predicate AllSlices(fs: seq<bytes>, M: seq<Message>)
  {
    forall i :: 0 <= i < |fs| ==> IsSlice(fs[i], M)
  }

  lemma StartsWithSlice(fs: seq<bytes>, M: seq<Message>)
    requires fs != [] && AllSlices(fs, M)
    ensures IsSlice(Concat(fs), M)
  {
    FrontOfRecord(fs[0], Concat(fs[1..]), M);
  }

  lemma {:induction false} SliceAtStart(fs: seq<bytes>, p: nat, M: seq<Message>)
    requires Fragments(fs) && AllSlices(fs, M) && IsStart(fs, p)
    ensures p <= |Concat(fs)| && IsSlice(Concat(fs)[p..], M)
    decreases |fs|
  {
    Front(fs);
    StartsWithSlice(fs, M);
    if p == 0 {
      assert Concat(fs)[0..] == Concat(fs);
    } else {
      hide IsSlice, Concat, Fragments, TotalLen;
      SliceAtStart(fs[1..], p - |fs[0]|, M);
      TailOfTail(Concat(fs), |fs[0]|, p);
    }
  }

  lemma {:induction false} LooksInSync(s: bytes, at: nat, fs: seq<bytes>, M: seq<Message>)
    requires Fragments(fs) && AllSlices(fs, M) && LooksAtStarts(s, at, fs)
    requires s != [] ==> at <= |Concat(fs)| && s == Concat(fs)[at..]
    ensures InSync(s, M)
    decreases |s|
  {
    if s != [] {
      hide IsSlice, Concat, Fragments, IsStart, AllSlices, TotalLen;
      SliceAtStart(fs, at, M);
      LongEnough(s, M);
      var n := HDR + TotalLen(s);
      if n < |s| {
        TailOfTail(Concat(fs), at, at + n);
      }
      LooksInSync(Rest(s, n), at + n, fs, M);
    }
  }

  lemma LongEnough(s: bytes, M: seq<Message>)
    requires IsSlice(s, M)
    ensures |s| >= HDR
  {
  }

  /** Slices that are packed so that every skip lands are delivered rightly. */
  lemma LandsIsInSync(fs: seq<bytes>, M: seq<Message>)
    requires Fragments(fs) && AllSlices(fs, M)
    requires ExtentsOk(Extents(fs)) && Lands(Extents(fs))
    ensures InSync(Concat(fs), M)
  {
    LooksAtStartsIffLands(fs);
    assert Concat(fs)[0..] == Concat(fs);
    LooksInSync(Concat(fs), 0, fs, M);
  }

  // ---------- A skip that does not land

  /** The body of message 1 looks like a message 0 without a body. */
  const ForgedBytes: bytes := [99, 0, 0, 0, 0, 0, 0, 0, 0, 0, 0, 0]
  const TwelveZeros: bytes := [0, 0, 0, 0, 0, 0, 0, 0, 0, 0, 0, 0]
  const TwoMessages: seq<Message> := [Message(1, TwelveZeros), Message(2, ForgedBytes)]
  /** An empty fragment of message 0, which has 12 bytes. */
  const EmptyFragment: bytes := [1, 0, 0, 12, 0, 0, 0, 0, 0, 0, 0, 0]

  function TwoInOne(): Record
  {
    Record(0, Handshake, EmptyFragment + Canon(TwoMessages[1], 1), 49, WellFormed, true)
  }

  lemma EmptyFragmentFirst(s: bytes)
    requires |s| > HDR + 12 && s[..HDR] == EmptyFragment
    ensures HeaderOk(s) && TotalLen(s) == 12 && MsgSeq(s) == 0 && Judge(s, 0) == Early
    ensures IsSlice(EmptyFragment, TwoMessages)
  {
    assert forall i :: 0 <= i < HDR ==> s[i] == EmptyFragment[i];
    assert s[9..12][2] != s[1..4][2];
  }

  lemma ForgedIsNext()
    ensures Judge(ForgedBytes, 0) == Done && TotalLen(ForgedBytes) == 0 && ForgedBytes != Canon(TwoMessages[0], 0)
  {
    var s := ForgedBytes;
    assert s[6..9] == [0, 0, 0] && s[9..12] == [0, 0, 0] == s[1..4];
    assert Canon(TwoMessages[0], 0)[0] == 1;
  }

  /** The receiver with that record in hand buffers the fragment and goes on behind it. */
  lemma FirstTurn(r: Receiver)
    requires ReceiverOk(r) && r.next == 0 && r.kind == Handshake && r.b.limits == DefaultLimits
    requires r.content == TwoInOne().content
    ensures var (r', st) := Handle(r);
      && st == Continue && r'.next == 0 && r'.transcript == r.transcript && r'.kind == Handshake
      && Rest(r'.content, r'.hsLen) == ForgedBytes
  {
    var s := r.content;
    assert s[..HDR] == EmptyFragment;
    EmptyFragmentFirst(s);
    RefusesIffNotAmple(r.b.limits);
    BufferFragmentErrors(r.b, 0, s);
    assert s[HDR + 12..] == ForgedBytes;
    hide BufferFragment, Ample, ReceiverOk;
  }

  /** Two slices in one record, that does authenticate: what is handed up as message 0 is
      the body of message 1. */
  lemma {:induction false} ForgedIsDelivered()
    ensures IsSlice(EmptyFragment, TwoMessages) && IsSlice(Canon(TwoMessages[1], 1), TwoMessages)
    ensures var r := Start(DefaultLimits, 0, 0);
      ReceiverOk(r) && Run(r, [Arrive([TwoInOne()]), ReadMessage], 2).0.transcript == [ForgedBytes]
    ensures ForgedBytes != Canon(TwoMessages[0], 0)
  {
    hide IsSlice, Read;
    var r := Start(DefaultLimits, 0, 0);
    StartOk(DefaultLimits, 0, 0);
    CanonIsSlice(TwoMessages, 1);
    ForgedIsNext();
    var content := TwoInOne().content;
    assert content[..HDR] == EmptyFragment;
    EmptyFragmentFirst(content);
    var r1 := r.(wire := [[TwoInOne()]]);
    assert r.wire + [[TwoInOne()]] == [[TwoInOne()]];
    ReadsForged(r1);
  }

  lemma ObtainsIt(r: Receiver)
    requires ReceiverOk(r) && r == Start(DefaultLimits, 0, 0).(wire := [[TwoInOne()]])
    ensures Obtain(r) == (r.(wire := [], content := TwoInOne().content), Done)
  {
    var rec := TwoInOne();
    assert |rec.content| == 36;
    assert r.wire[0] == [rec] && r.wire[1..] == [] && [rec][1..] == [];
    assert Rest(r.content, r.hsLen) == [];
  }

  lemma SecondTurn(r: Receiver)
    requires ReceiverOk(r) && r.next == 0 && r.kind == Handshake && r.transcript == []
    requires Rest(r.content, r.hsLen) == ForgedBytes
    ensures Turn(r) == (r.(content := ForgedBytes, hsLen := HDR), Done)
  {
    ForgedIsNext();
    var c := r.(content := ForgedBytes, hsLen := 0);
    assert Obtain(r) == (c, Done);
    assert Handle(c) == (c.(hsLen := HDR), Done);
  }

  lemma {:induction false} ReadsForged(r: Receiver)
    requires ReceiverOk(r) && r == Start(DefaultLimits, 0, 0).(wire := [[TwoInOne()]])
    ensures Read(r).0.transcript == [ForgedBytes]
  {
    hide Obtain, Handle, ReceiverOk, ForgedBytes, Rest;
    var r1 := r.(wire := [], content := TwoInOne().content);
    ObtainsIt(r);
    ObtainOk(r);
    FirstTurn(r1);
    var r2 := Handle(r1).0;
    TurnOk(r);
    TurnGoesOn(r);
    SecondTurn(r2);
    TurnOk(r2);
    ForgedLength(r2);
    assert Read(r) == Read(r2) == (Update(r2.(content := ForgedBytes, hsLen := HDR)), Done);
    assert [] + [ForgedBytes] == [ForgedBytes];
  }

  lemma ForgedLength(r: Receiver)
    requires ReceiverOk(r)
    ensures |ForgedBytes| == HDR && ForgedBytes[..HDR] == ForgedBytes && |r.b.slots| == SLOTS
  {
  }
}
