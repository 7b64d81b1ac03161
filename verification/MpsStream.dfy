/** The MPS reader as its users see it: a byte stream, fed at one end in fragments and
    read at the other in chunks, with a mark before which nothing needs to be kept. */
module MpsStreams {
  import opened Bytes

  datatype Code =
    | Success | InvalidArg | OperationUnexpected | NeedMore | OutOfData
    | InconsistentRequests | DataLeft | NeedAccumulator | AccumulatorTooSmall

  /** `fed` is everything handed to feed so far and `base` how much of it has been
      reclaimed. The other positions are relative to `base`. While attached, the bytes
      below `seam` come from the accumulator, and those below `joint` are in it too;
      while detached, the accumulator holds `joint` bytes and waits for `missing` more. */
  datatype Stream = Stream(
    fed: bytes, base: nat, attached: bool, commit: nat, end: nat, pending: nat,
    seam: nat, joint: nat, missing: nat, accLen: Option<nat>)

  function Length(s: Stream): int
  {
    |s.fed| - s.base
  }

  predicate Ok(s: Stream)
  {
    && s.base <= |s.fed|
    && (s.joint > 0 ==> s.accLen.Some? && s.joint + s.missing <= s.accLen.value)
    && (if s.attached then
          && s.missing == 0
          && s.commit <= s.end <= Length(s) && s.joint <= Length(s)
          && (if s.joint == 0 then s.seam == 0 else 0 < s.seam < s.joint)
          && (s.pending > 0 ==> s.seam <= s.end < Length(s))
        else
          && s.commit == s.end == s.pending == s.seam == 0
          && s.joint == Length(s)
          && (s.missing == 0 <==> s.joint == 0))
  }

  function Init(accLen: Option<nat>): (s: Stream)
    ensures Ok(s)
  {
    Stream([], 0, false, 0, 0, 0, 0, 0, 0, accLen)
  }

  // ---------- What the calls do

  function Feed(s: Stream, frag: bytes): (r: (Stream, Code))
    requires Ok(s)
    ensures Ok(r.0)
  {
    if s.attached then (s, OperationUnexpected)
    else if s.missing > |frag| then
      (s.(fed := s.fed + frag, joint := s.joint + |frag|, missing := s.missing - |frag|), NeedMore)
    else
      (s.(fed := s.fed + frag, attached := true, seam := s.joint, joint := s.joint + s.missing, missing := 0), Success)
  }

  /** With `exact`, less than what was desired will not do. */
  function Get(s: Stream, desired: nat, exact: bool): (r: (Stream, Code))
    requires Ok(s)
    ensures Ok(r.0)
  {
    if !s.attached then (s, OperationUnexpected)
    else if s.end < s.seam then
      if s.seam - s.end < desired && s.joint - s.end != desired then (s, InconsistentRequests)
      else (s.(end := s.end + desired, pending := 0), Success)
    else
      var left := Length(s) - s.end;
      if left >= desired then (s.(end := s.end + desired, pending := 0), Success)
      else if !exact then (s.(end := s.end + left, pending := 0), Success)
      else (s.(pending := if left > 0 then desired - left else s.pending), OutOfData)
  }

  function Commit(s: Stream): (r: (Stream, Code))
    requires Ok(s)
    ensures Ok(r.0)
  {
    if !s.attached then (s, OperationUnexpected) else (s.(commit := s.end), Success)
  }

  function Detach(s: Stream, missing: nat): Stream
    requires Ok(s) && s.attached
  {
    s.(base := s.base + s.commit, attached := false, commit := 0, end := 0, pending := 0,
       seam := 0, joint := Length(s) - s.commit, missing := missing)
  }

  function Reclaim(s: Stream): (r: (Stream, Code))
    requires Ok(s)
    ensures Ok(r.0)
  {
    if !s.attached then (s, OperationUnexpected)
    else if s.pending == 0 then
      if s.commit < Length(s) then (s.(end := s.commit), DataLeft)
      else (Detach(s, 0), Success)
    else if s.accLen.None? then (s, NeedAccumulator)
    else if s.accLen.value < Length(s) - s.commit + s.pending then
      (s.(end := s.commit, pending := 0), AccumulatorTooSmall)
    else (Detach(s, s.pending), Success)
  }

  /** The bytes a successful get hands out. */
  function Chunk(before: Stream, after: Stream): bytes
    requires Ok(before) && Ok(after) && after.fed == before.fed && after.base == before.base && before.end <= after.end
  {
    before.fed[before.base + before.end..before.base + after.end]
  }

  // ---------- What a caller may rely on

  /** What is left of the fragment, or of the accumulator with the bytes behind it. */
  function Left(s: Stream): nat
    requires Ok(s) && s.attached
  {
    Length(s) - s.end
  }

  /** The number of bytes a successful get hands out. */
  function Served(s: Stream, desired: nat, exact: bool): nat
    requires Ok(s) && s.attached
  {
    if exact || s.end < s.seam then desired else Min(desired, Left(s))
  }

  /** A get that is exact hands out what was desired and nothing less; one that is not is
      content with what is left of the fragment. In the accumulator only requests succeed
      that stay within the old bytes or end where the failed request ended. */
  lemma GetServes(s: Stream, desired: nat, exact: bool)
    requires Ok(s)
    ensures var (s', code) := Get(s, desired, exact);
      && (code == OperationUnexpected <==> !s.attached)
      && (s.attached ==>
            && (code == Success ==> s'.end == s.end + Served(s, desired, exact) && s'.pending == 0)
            && (code == InconsistentRequests <==>
                  s.end < s.seam && s.end + desired > s.seam && s.end + desired != s.joint)
            && (code == OutOfData <==> s.end >= s.seam && exact && desired > Left(s))
            && (code == OutOfData && Left(s) > 0 ==> s'.pending == desired - Left(s)))
      && s' == s.(end := s'.end, pending := s'.pending) && (code != Success ==> s'.end == s.end)
      && (code == OperationUnexpected || code == InconsistentRequests ==> s' == s)
      && code in {Success, OperationUnexpected, InconsistentRequests, OutOfData}
  {
  }

  /** Feeding is refused while a fragment is attached, and is to go on exactly while more
      is missing than comes; the fragment is always taken in as a whole. */
  lemma FeedTakes(s: Stream, frag: bytes)
    requires Ok(s)
    ensures var (s', code) := Feed(s, frag);
      && (code == OperationUnexpected <==> s.attached) && (s.attached ==> s' == s)
      && (code == NeedMore <==> !s.attached && |frag| < s.missing)
      && (code == NeedMore ==> s'.missing == s.missing - |frag| && !s'.attached)
      && (!s.attached ==> s'.fed == s.fed + frag && s'.base == s.base && s'.end == s'.commit == 0)
      && (code == Success ==> s'.attached && s'.missing == 0)
  {
  }

  /** The fragment is given back if and only if all of it is committed, or what is not is
      kept together with room for what is missing; else the position goes back to the last
      commit, but for a reader without an accumulator. */
  lemma ReclaimGivesBack(s: Stream)
    requires Ok(s)
    ensures var (s', code) := Reclaim(s);
      && (code == OperationUnexpected <==> !s.attached)
      && (s.attached ==>
            && (code == DataLeft <==> s.pending == 0 && s.commit < Length(s))
            && (code == NeedAccumulator <==> s.pending > 0 && s.accLen == None)
            && (code == AccumulatorTooSmall <==>
                  s.pending > 0 && s.accLen.Some? && s.accLen.value < Length(s) - s.commit + s.pending)
            && (code == DataLeft || code == AccumulatorTooSmall ==> s' == s.(end := s.commit, pending := 0))
            && (code == Success ==>
                  && !s'.attached && s'.base == s.base + s.commit && s'.joint == Length(s) - s.commit
                  && s'.missing == s.pending))
      && (code == OperationUnexpected || code == NeedAccumulator ==> s' == s)
      && code in {Success, OperationUnexpected, DataLeft, NeedAccumulator, AccumulatorTooSmall}
  {
  }

  // ---------- Pausing and resuming

  function Sum(xs: seq<nat>): nat
  {
    if xs == [] then 0 else xs[0] + Sum(xs[1..])
  }

  /** Feed fragments until one of them is not answered with NEED_MORE. */
  predicate FeedResumes(s: Stream, frags: seq<bytes>)
    requires Ok(s)
    decreases |frags|
  {
    && frags != []
    && var (s', code) := Feed(s, frags[0]);
       if code == NeedMore then FeedResumes(s', frags[1..]) else code == Success && |frags| == 1
  }

  function FeedAll(s: Stream, frags: seq<bytes>): (r: Stream)
    requires Ok(s)
    ensures Ok(r)
    decreases |frags|
  {
    if frags == [] then s else FeedAll(Feed(s, frags[0]).0, frags[1..])
  }

  /** Every get succeeds, with the length asked for. */
  predicate AllServed(s: Stream, wants: seq<nat>, exact: bool)
    requires Ok(s)
    decreases |wants|
  {
    wants != [] ==>
      var (s', code) := Get(s, wants[0], exact);
      code == Success && s'.end == s.end + wants[0] && s'.fed == s.fed && s'.base == s.base &&
        AllServed(s', wants[1..], exact)
  }

  lemma {:induction false} ResumeKeeps(s: Stream, frags: seq<bytes>)
    requires Ok(s) && !s.attached && s.missing > 0 && FeedResumes(s, frags)
    ensures var r := FeedAll(s, frags);
      r.attached && r.end == r.commit == 0 && r.base == s.base && s.fed <= r.fed
      && s.joint <= r.seam && r.joint == s.joint + s.missing
    decreases |frags|
  {
    var (s', code) := Feed(s, frags[0]);
    if code == NeedMore {
      ResumeKeeps(s', frags[1..]);
    } else {
      assert frags[1..] == [];
    }
  }

  lemma {:induction false} ServedFromAccumulator(s: Stream, gets: seq<nat>, want: nat, exact: bool)
    requires Ok(s) && s.attached && s.end + Sum(gets) < s.seam && s.end + Sum(gets) + want == s.joint
    ensures AllServed(s, gets + [want], exact)
    decreases |gets|
  {
    if gets == [] {
      assert (gets + [want])[1..] == [];
    } else {
      assert (gets + [want])[1..] == gets[1..] + [want];
      ServedFromAccumulator(Get(s, gets[0], exact).0, gets[1..], want, exact);
    }
  }

  /** The call of reclaim pauses the reader: it waits for more. */
  predicate Pauses(s: Stream)
    requires Ok(s)
  {
    Reclaim(s).1 == Success && Reclaim(s).0.missing > 0
  }

  /** Progress. A get of `want` bytes failed for lack of data after the gets `gets`
      had been made since the last commit; the reader was paused and fed until it
      resumed. The same gets followed by the failed one now all succeed, never with
      INCONSISTENT_REQUESTS, and what they return starts where the last commit was, so
      the bytes returned before come again. */
  lemma PauseResume(s: Stream, gets: seq<nat>, want: nat, frags: seq<bytes>, exact: bool)
    requires Ok(s) && s.attached && s.end == s.commit + Sum(gets)
    requires var (failed, code) := Get(s, want, true);
      code == OutOfData && Pauses(failed) && FeedResumes(Reclaim(failed).0, frags)
    ensures var resumed := FeedAll(Reclaim(Get(s, want, true).0).0, frags);
      && AllServed(resumed, gets + [want], exact)
      && resumed.base == s.base + s.commit && resumed.end == 0 && s.fed <= resumed.fed
  {
    var paused := Reclaim(Get(s, want, true).0).0;
    ResumeKeeps(paused, frags);
    ServedFromAccumulator(FeedAll(paused, frags), gets, want, exact);
  }

  /** And after any get that failed for lack of data, the reader pauses exactly when the
      get found something, if not enough, and there is an accumulator that can hold what
      is not committed together with what is missing. */
  lemma PausesIffRoom(s: Stream, want: nat)
    requires Ok(s) && s.attached && Get(s, want, true).1 == OutOfData
    ensures Pauses(Get(s, want, true).0) <==>
      && s.end < Length(s) && s.accLen.Some?
      && (s.end - s.commit) + want <= s.accLen.value
  {
  }

  /** If the get found nothing because the fragment was used up exactly, reclaim refuses
      to give the fragment back if and only if something of it is not committed; then no
      accumulator helps. */
  lemma UsedUpExactly(s: Stream, want: nat)
    requires Ok(s) && s.attached && Get(s, want, true).1 == OutOfData && s.end == Length(s)
    ensures !Pauses(Get(s, want, true).0)
    ensures Reclaim(Get(s, want, true).0).1 == if s.commit < s.end then DataLeft else Success
  {
  }

  /** Such a case: a fragment was got to its end and not committed, the get of one byte
      more fails, and reclaim answers DATA_LEFT however much room the accumulator has. */
  lemma NoPauseWithRoom(frag: bytes, room: nat)
    requires frag != [] && |frag| < room
    ensures var fed := Feed(Init(Some(room)), frag).0;
      var (got, code) := Get(fed, |frag|, true);
      && code == Success && got.end == |frag| && got.commit == 0 && (got.end - got.commit) + 1 <= room
      && Get(got, 1, true).1 == OutOfData && Reclaim(Get(got, 1, true).0).1 == DataLeft
  {
    var fed := Feed(Init(Some(room)), frag).0;
    assert [] + frag == frag;
    var got := Get(fed, |frag|, true).0;
    UsedUpExactly(got, 1);
  }
}
