/** The MPS reader: fragment, accumulator, and the offsets into both. */
module MpsReaders {
  import opened Bytes
  import opened MpsStreams

  const SIZE_LIMIT: nat := 0x1_0000_0000_0000_0000

  type size = n: int | 0 <= n < SIZE_LIMIT

  /** a + b as size_t computes it. */
  function Add(a: size, b: size): size
  {
    (a + b) % SIZE_LIMIT
  }

  lemma AddWraps(a: size, b: size)
    ensures Add(a, b) < a <==> a + b >= SIZE_LIMIT
    ensures a + b < SIZE_LIMIT ==> Add(a, b) == a + b
  {
    if a + b >= SIZE_LIMIT {
      assert (a + b) % SIZE_LIMIT == (a + b - SIZE_LIMIT) % SIZE_LIMIT == a + b - SIZE_LIMIT;
    }
  }

  class MpsReader {
    var frag: array?<byte>
    var fragLen: size
    var commit: size
    var end: size
    var pending: size
    var acc: array?<byte>
    var accLen: size
    var accAvailable: size
    /** The union acc_share: what is missing while producing, where the fragment
        starts while consuming. */
    var accShare: size

    ghost var stream: Stream

    ghost predicate Valid()
      reads this, frag, acc
    {
      && Ok(stream) && stream.attached == (frag != null)
      && commit == stream.commit && end == stream.end && pending == stream.pending
      && (acc == null ==> stream.accLen == None && stream.joint == 0)
      && (acc != null ==> AccOk())
      && (if frag != null then FragOk() else fragLen == 0)
    }

    ghost predicate AccOk()
      requires acc != null && Ok(stream)
      reads this, acc
    {
      && acc.Length == accLen && stream.accLen == Some(accLen)
      && accAvailable == stream.joint <= accLen
      && accShare == (if stream.attached then stream.seam else stream.missing)
      && forall i :: 0 <= i < accAvailable ==> acc[i] == stream.fed[stream.base + i]
    }

    ghost predicate FragOk()
      requires frag != null && Ok(stream)
      reads this, frag
    {
      && frag != acc && fragLen <= frag.Length
      && stream.seam + fragLen == Length(stream) && accLen + fragLen < SIZE_LIMIT
      && forall i :: 0 <= i < fragLen ==> frag[i] == stream.fed[stream.base + stream.seam + i]
    }

    constructor (acc: array?<byte>, accLen: size)
      requires acc != null ==> acc.Length == accLen
      ensures Valid() && stream == Init(if acc == null then None else Some(accLen))
      ensures frag == null && this.acc == acc && this.accLen == accLen
    {
      frag, fragLen, commit, end, pending, accAvailable, accShare := null, 0, 0, 0, 0, 0, 0;
      this.acc, this.accLen := acc, accLen;
      stream := Init(if acc == null then None else Some(accLen));
    }

    lemma StreamOk()
      requires Valid()
      ensures Ok(stream)
    {
    }

    predicate IsAccumulating()
      reads this
    {
      acc != null && accShare > 0
    }

    function FragmentOffset(): size
      reads this
    {
      if acc == null then 0 else accShare
    }

    method Feed(newFrag: array?<byte>, newFragLen: size) returns (code: Code)
      requires Valid()
      requires newFrag != null ==> newFragLen <= newFrag.Length && newFrag != acc
      requires accLen + newFragLen < SIZE_LIMIT  // two buffers in one address space
      modifies this, acc
      ensures Valid() && acc == old(acc) && accLen == old(accLen)
      ensures newFrag == null ==> code == InvalidArg && stream == old(stream)
      ensures newFrag != null ==> (stream, code) == MpsStreams.Feed(old(stream), old(newFrag[..newFragLen]))
      ensures code == Success ==> frag == newFrag
      ensures code != Success ==> frag == old(frag)
    {
      hide MpsStreams.Feed, Valid;
      if newFrag == null {
        return InvalidArg;
      }
      if frag != null {
        NotWhileAttached(newFrag[..newFragLen]);
        return OperationUnexpected;
      }
      if IsAccumulating() {
        code := FeedAccumulator(newFrag, newFragLen);
      } else {
        FeedFragment(newFrag, newFragLen);
        code := Success;
      }
    }

    lemma NotWhileAttached(s: bytes)
      requires Valid() && frag != null
      ensures MpsStreams.Feed(stream, s) == (stream, OperationUnexpected)
    {
    }

    /** Nothing is kept from before: only the fragment is read. */
    method FeedFragment(newFrag: array<byte>, newFragLen: size)
      requires Valid() && frag == null && !IsAccumulating()
      requires newFragLen <= newFrag.Length && newFrag != acc && accLen + newFragLen < SIZE_LIMIT
      modifies this`accShare, this`frag, this`fragLen, this`commit, this`end, this`stream
      ensures Valid() && (stream, Success) == MpsStreams.Feed(old(stream), newFrag[..newFragLen]) && frag == newFrag
    {
      accShare := 0;
      frag, fragLen, commit, end := newFrag, newFragLen, 0, 0;
      stream := MpsStreams.Feed(stream, newFrag[..newFragLen]).0;
    }

    method FeedAccumulator(newFrag: array<byte>, newFragLen: size) returns (code: Code)
      requires Valid() && frag == null && IsAccumulating()
      requires newFragLen <= newFrag.Length && newFrag != acc && accLen + newFragLen < SIZE_LIMIT
      modifies this`accShare, this`accAvailable, this`frag, this`fragLen, this`commit, this`end, this`stream, acc
      ensures Valid() && (stream, code) == MpsStreams.Feed(old(stream), newFrag[..newFragLen])
      ensures frag == if code == Success then newFrag else null
    {
      code := Accumulate(newFrag, newFragLen);
      if code == Success {
        frag, fragLen, commit, end := newFrag, newFragLen, 0, 0;
      }
      stream := MpsStreams.Feed(stream, newFrag[..newFragLen]).0;
    }

    /** Top up the accumulator with the new fragment. */
    method Accumulate(newFrag: array<byte>, newFragLen: size) returns (code: Code)
      requires Valid() && frag == null && IsAccumulating() && newFragLen <= newFrag.Length && newFrag != acc
      modifies this`accShare, this`accAvailable, acc
      ensures code == if old(accShare) > newFragLen then NeedMore else Success
      ensures accAvailable == old(accAvailable) + Min(old(accShare), newFragLen)
      ensures accShare == if code == NeedMore then old(accShare) - newFragLen else old(accAvailable)
      ensures forall i :: 0 <= i < old(accAvailable) ==> acc[i] == old(acc[i])
      ensures forall i :: old(accAvailable) <= i < accAvailable ==> acc[i] == newFrag[i - old(accAvailable)]
    {
      var copyToAcc := if accShare > newFragLen then newFragLen else accShare;
      Copy(newFrag, 0, acc, accAvailable, copyToAcc);
      var accRemaining := accShare - copyToAcc;
      if accRemaining > 0 {
        code, accShare := NeedMore, accRemaining;
      } else {
        code, accShare := Success, accAvailable;
      }
      accAvailable := accAvailable + copyToAcc;
    }

    method Get(desired: size, exact: bool) returns (code: Code, buffer: array?<byte>, offset: nat, buflen: size)
      requires Valid()
      modifies this`end, this`pending, this`stream
      ensures Valid() && (stream, code) == MpsStreams.Get(old(stream), desired, exact)
      ensures code == Success ==> buffer != null && offset + buflen <= buffer.Length
      ensures code == Success ==> buffer[offset..offset + buflen] == Chunk(old(stream), stream)
      ensures code == Success ==> old(stream).attached && buflen == Served(old(stream), desired, exact)
    {
      hide MpsStreams.Get;
      GetServes(stream, desired, exact);
      if frag == null {
        code, buffer, offset, buflen := OperationUnexpected, null, 0, 0;
      } else if end < FragmentOffset() {
        code, buffer, offset, buflen := GetFromAccumulator(desired, exact);
      } else {
        code, buffer, offset, buflen := GetFromFragment(desired, exact);
      }
    }

    lemma AccSlice(from: nat, len: nat)
      requires Valid() && acc != null && from + len <= accAvailable
      ensures acc[from..from + len] == stream.fed[stream.base + from..stream.base + from + len]
    {
    }

    lemma FragSlice(from: nat, len: nat)
      requires Valid() && frag != null && from + len <= fragLen
      ensures var at := stream.base + stream.seam + from;
        frag[from..from + len] == stream.fed[at..at + len]
    {
    }

    method GetFromAccumulator(desired: size, exact: bool)
      returns (code: Code, buffer: array?<byte>, offset: nat, buflen: size)
      requires Valid() && frag != null && end < FragmentOffset()
      modifies this`end, this`pending, this`stream
      ensures Valid() && (stream, code) == MpsStreams.Get(old(stream), desired, exact)
      ensures code == Success ==> buffer != null && offset + buflen <= buffer.Length
      ensures code == Success ==> buffer[offset..offset + buflen] == Chunk(old(stream), stream)
    {
      hide MpsStreams.Feed, MpsStreams.Reclaim, MpsStreams.Commit;
      code, buffer, offset, buflen := InconsistentRequests, null, 0, 0;
      if FragmentOffset() - end >= desired || accAvailable - end == desired {
        AccSlice(end, desired);
        code, buffer, offset, buflen := Success, acc, end, desired;
        end := end + desired;
        pending := 0;
      }
      stream := MpsStreams.Get(stream, desired, exact).0;
    }

    /** `n` more bytes of the fragment are handed out. */
    method TakeFromFragment(n: size) returns (offset: nat)
      requires Valid() && frag != null && end >= FragmentOffset() && n <= Length(stream) - end
      modifies this`end, this`pending, this`stream
      ensures Valid() && stream == old(stream).(end := old(end) + n, pending := 0)
      ensures offset + n <= frag.Length && frag[offset..offset + n] == Chunk(old(stream), stream)
    {
      offset := end - FragmentOffset();
      FragSlice(offset, n);
      end := end + n;
      pending := 0;
      stream := stream.(end := end, pending := 0);
    }

    /** Remember how much is missing. */
    method SetPending(missing: size)
      requires Valid() && frag != null && FragmentOffset() <= end < Length(stream) && missing > 0
      modifies this`pending, this`stream
      ensures Valid() && stream == old(stream).(pending := missing)
    {
      pending := missing;
      stream := stream.(pending := missing);
    }

    lemma FragmentLeft()
      requires Valid() && frag != null && end >= FragmentOffset()
      ensures stream.attached && stream.end == end >= stream.seam && end - FragmentOffset() <= fragLen
      ensures fragLen - (end - FragmentOffset()) == Length(stream) - end && stream.pending == pending
    {
    }

    method GetFromFragment(desired: size, exact: bool)
      returns (code: Code, buffer: array?<byte>, offset: nat, buflen: size)
      requires Valid() && frag != null && end >= FragmentOffset()
      modifies this`end, this`pending, this`stream
      ensures Valid() && (stream, code) == MpsStreams.Get(old(stream), desired, exact)
      ensures code == Success ==> buffer != null && offset + buflen <= buffer.Length
      ensures code == Success ==> buffer[offset..offset + buflen] == Chunk(old(stream), stream)
    {
      FragmentLeft();
      hide Valid;
      var fragRemaining := fragLen - (end - FragmentOffset());
      if fragRemaining < desired && exact {
        if fragRemaining > 0 {
          SetPending(desired - fragRemaining);
        }
        code, buffer, offset, buflen := OutOfData, null, 0, 0;
      } else {
        code, buffer, buflen := Success, frag, if fragRemaining < desired then fragRemaining else desired;
        offset := TakeFromFragment(buflen);
      }
    }

    method Commit() returns (code: Code)
      requires Valid()
      modifies this`commit, this`stream
      ensures Valid() && (stream, code) == MpsStreams.Commit(old(stream))
    {
      if frag == null {
        return OperationUnexpected;
      }
      commit := end;
      stream := MpsStreams.Commit(stream).0;
      return Success;
    }

    method Reclaim() returns (code: Code, paused: bool)
      requires Valid()
      modifies this, acc
      ensures Valid() && (stream, code) == MpsStreams.Reclaim(old(stream)) && acc == old(acc) && accLen == old(accLen)
      ensures paused <==> code == Success && old(pending) > 0
      ensures frag == if code == Success then null else old(frag)
    {
      paused := false;
      if frag == null {
        code := OperationUnexpected;
      } else if pending == 0 {
        code := ReclaimConsumed();
      } else if acc == null {
        code := NeedAccumulator;
      } else {
        paused := Backup(FragmentOffset());
        code := ReclaimPaused(paused);
      }
    }

    method ReclaimConsumed() returns (code: Code)
      requires Valid() && frag != null && pending == 0
      modifies this
      ensures Valid() && (stream, code) == MpsStreams.Reclaim(old(stream)) && acc == old(acc) && accLen == old(accLen)
      ensures frag == if code == Success then null else old(frag)
    {
      if commit < FragmentOffset() || commit - FragmentOffset() < fragLen {
        end := commit;
        code := DataLeft;
      } else {
        accAvailable, accShare := 0, 0;
        frag, fragLen, commit, end, pending := null, 0, 0, 0, 0;
        code := Success;
      }
      stream := MpsStreams.Reclaim(stream).0;
    }

    /** What is not committed: accLeft bytes of the accumulator from accFrom on, and then
        fragLeft bytes of the fragment from fragFrom on. */
    method Uncommitted(fragOffset: size) returns (accFrom: size, accLeft: size, fragFrom: size, fragLeft: size)
      requires Valid() && frag != null && acc != null && fragOffset == FragmentOffset()
      ensures accFrom + accLeft <= acc.Length && fragFrom + fragLeft <= frag.Length
      ensures accLeft + fragLeft == Length(stream) - commit
      ensures forall i :: accFrom <= i < accFrom + accLeft ==>
        acc[i] == stream.fed[stream.base + commit + (i - accFrom)]
      ensures forall i :: fragFrom <= i < fragFrom + fragLeft ==>
        frag[i] == stream.fed[stream.base + commit + accLeft + (i - fragFrom)]
    {
      if commit < fragOffset {
        accFrom, accLeft, fragFrom, fragLeft := commit, fragOffset - commit, 0, fragLen;
      } else {
        accFrom, accLeft, fragFrom, fragLeft := 0, 0, commit - fragOffset, fragLen - (commit - fragOffset);
      }
    }

    /** Move what is not committed to the front of the accumulator, if it fits there
        together with what is missing. */
    method Backup(fragOffset: size) returns (ok: bool)
      requires Valid() && frag != null && acc != null && fragOffset == FragmentOffset()
      modifies this`accAvailable, this`accShare, acc
      ensures ok <==> Length(stream) - commit + pending <= accLen
      ensures !ok ==> unchanged(this) && unchanged(acc)
      ensures ok ==> accAvailable == Length(stream) - commit && accShare == pending
      ensures ok ==> forall i :: 0 <= i < accAvailable ==> acc[i] == stream.fed[stream.base + commit + i]
    {
      var accBackupOffset, accBackupLen, fragBackupOffset, fragBackupLen := Uncommitted(fragOffset);
      assert frag != acc && acc.Length == accLen && Length(stream) >= commit;
      hide Valid, Length;
      var backupLen := Add(accBackupLen, fragBackupLen);
      var accLenNeeded := Add(backupLen, pending);
      AddWraps(accBackupLen, fragBackupLen);
      AddWraps(backupLen, pending);
      var overflow := backupLen < accBackupLen || accLenNeeded < backupLen;
      hide Add;
      ok := !(overflow || accLen < accLenNeeded);
      if ok {
        Copy(acc, accBackupOffset, acc, 0, accBackupLen);
        Copy(frag, fragBackupOffset, acc, accBackupLen, fragBackupLen);
        accAvailable, accShare := backupLen, pending;
      }
    }

    method ReclaimPaused(ok: bool) returns (code: Code)
      requires frag != null && acc != null && Ok(stream) && stream.attached && pending > 0
      requires commit == stream.commit && pending == stream.pending && end == stream.end
      requires acc.Length == accLen && stream.accLen == Some(accLen)
      requires ok <==> Length(stream) - commit + pending <= accLen
      requires !ok ==> Valid()
      requires ok ==> accAvailable == Length(stream) - commit && accShare == pending
      requires ok ==> forall i :: 0 <= i < accAvailable ==> acc[i] == stream.fed[stream.base + commit + i]
      modifies this
      ensures Valid() && (stream, code) == MpsStreams.Reclaim(old(stream)) && acc == old(acc) && accLen == old(accLen)
      ensures frag == if ok then null else old(frag)
      ensures code == Success <==> ok
    {
      if ok {
        frag, fragLen, commit, end, pending := null, 0, 0, 0, 0;
        code := Success;
      } else {
        end, pending := commit, 0;
        code := AccumulatorTooSmall;
      }
      stream := MpsStreams.Reclaim(stream).0;
    }
  }

  datatype Call = FeedNull | Feed(frag: bytes) | Get(desired: nat, exact: bool) | Commit | Reclaim

  predicate CallOk(call: Call, accLen: nat)
  {
    match call
    case Feed(frag) => accLen + |frag| < SIZE_LIMIT
    case Get(desired, _) => desired < SIZE_LIMIT
    case _ => true
  }

  /** What the consumer has got and committed, and what it has got since. */
  datatype Consumer = Consumer(committed: bytes, tentative: bytes)

  /** A reader and its consumer, as seen from outside. */
  datatype Watch = Watch(stream: Stream, consumer: Consumer)

  /** What one call does to both. */
  function Watched(w: Watch, call: Call): (r: Watch)
    requires Ok(w.stream)
    ensures Ok(r.stream)
  {
    match call
    case FeedNull => w
    case Feed(frag) => w.(stream := MpsStreams.Feed(w.stream, frag).0)
    case Get(desired, exact) =>
      var (s, code) := MpsStreams.Get(w.stream, desired, exact);
      Watch(s, if code == Success then w.consumer.(tentative := w.consumer.tentative + Chunk(w.stream, s))
        else w.consumer)
    case Commit =>
      var (s, code) := MpsStreams.Commit(w.stream);
      Watch(s, if code == Success then Consumer(w.consumer.committed + w.consumer.tentative, []) else w.consumer)
    case Reclaim =>
      var (s, code) := MpsStreams.Reclaim(w.stream);
      var kept := code != Success && code != DataLeft && code != AccumulatorTooSmall;
      Watch(s, if kept then w.consumer else w.consumer.(tentative := []))
  }

  function WatchedAll(accLen: Option<nat>, calls: seq<Call>): (r: Watch)
    ensures Ok(r.stream)
  {
    if calls == [] then Watch(Init(accLen), Consumer([], []))
    else Watched(WatchedAll(accLen, calls[..|calls| - 1]), calls[|calls| - 1])
  }

  /** What the consumer is given by a get, call by call. */
  predicate GetsServed(accLen: Option<nat>, calls: seq<Call>)
  {
    forall i :: 0 <= i < |calls| && calls[i].Get? ==> GetServed(accLen, calls, i)
  }

  predicate GetServed(accLen: Option<nat>, calls: seq<Call>, i: nat)
    requires i < |calls| && calls[i].Get?
  {
    var w, w' := WatchedAll(accLen, calls[..i]), WatchedAll(accLen, calls[..i + 1]);
    var (s, c, c') := (w.stream, w.consumer, w'.consumer);
    var succeeds := s.attached && if s.end < s.seam
      then s.end + calls[i].desired <= s.seam || s.end + calls[i].desired == s.joint
      else !calls[i].exact || calls[i].desired <= Left(s);
    && c'.committed == c.committed && c.tentative <= c'.tentative
    && |c'.tentative| == |c.tentative| + if succeeds then Served(s, calls[i].desired, calls[i].exact) else 0
  }

  lemma EachGetIsServed(accLen: Option<nat>, calls: seq<Call>)
    ensures GetsServed(accLen, calls)
  {
    hide MpsStreams.Get, Ok;
    forall i | 0 <= i < |calls| && calls[i].Get?
      ensures GetServed(accLen, calls, i)
    {
      var w := WatchedAll(accLen, calls[..i]);
      assert calls[..i + 1][..i] == calls[..i] && calls[..i + 1][i] == calls[i];
      GetServes(w.stream, calls[i].desired, calls[i].exact);
      GetMoves(w.stream, calls[i].desired, calls[i].exact);
    }
  }

  predicate Tracks(w: Watch)
    requires Ok(w.stream)
  {
    var s := w.stream;
    && w.consumer.committed == s.fed[..s.base + s.commit]
    && w.consumer.committed + w.consumer.tentative == s.fed[..s.base + s.end]
  }

  lemma GetMoves(s: Stream, desired: nat, exact: bool)
    requires Ok(s)
    ensures var (s', code) := MpsStreams.Get(s, desired, exact);
      && s' == s.(end := s'.end, pending := s'.pending) && s.base + s.end <= s.base + s'.end
      && (if code == Success then s.base + s'.end <= |s.fed| else s'.end == s.end)
  {
  }

  lemma GetTracks(w: Watch, desired: nat, exact: bool)
    requires Ok(w.stream) && Tracks(w)
    ensures Tracks(Watched(w, Get(desired, exact)))
  {
    hide MpsStreams.Feed, MpsStreams.Reclaim, MpsStreams.Commit, MpsStreams.Get, Ok;
    GetMoves(w.stream, desired, exact);
    var (s, code) := MpsStreams.Get(w.stream, desired, exact);
    if code == Success {
      var fed, from, to := s.fed, s.base + w.stream.end, s.base + s.end;
      assert fed[..to] == fed[..from] + fed[from..to];
      Assoc(w.consumer.committed, w.consumer.tentative, fed[from..to]);
    }
  }

  lemma CommitTracks(w: Watch)
    requires Ok(w.stream) && Tracks(w)
    ensures Tracks(Watched(w, Commit))
  {
  }

  lemma ReclaimTracks(w: Watch)
    requires Ok(w.stream) && Tracks(w)
    ensures Tracks(Watched(w, Reclaim))
  {
  }

  lemma FeedTracks(w: Watch, frag: bytes)
    requires Ok(w.stream) && Tracks(w)
    ensures Tracks(Watched(w, Feed(frag)))
  {
    var s, fed := w.stream, w.stream.fed;
    if !s.attached {
      assert (fed + frag)[..s.base] == fed[..s.base];
    }
  }

  /** What the consumer has is always what was fed, up to where it is. */
  lemma {:induction false} WatchedTracks(accLen: Option<nat>, calls: seq<Call>)
    ensures Tracks(WatchedAll(accLen, calls))
    decreases |calls|
  {
    if calls != [] {
      var w := WatchedAll(accLen, calls[..|calls| - 1]);
      WatchedTracks(accLen, calls[..|calls| - 1]);
      hide Tracks, Ok;
      match calls[|calls| - 1]
      case FeedNull =>
      case Feed(frag) => FeedTracks(w, frag);
      case Get(desired, exact) => GetTracks(w, desired, exact);
      case Commit => CommitTracks(w);
      case Reclaim => ReclaimTracks(w);
    }
  }

  /** One call, as the code around the reader sees it. */
  method Step(rd: MpsReader, call: Call, fed: bytes, c: Consumer) returns (fed': bytes, c': Consumer)
    requires rd.Valid() && CallOk(call, rd.accLen) && fed == rd.stream.fed
    modifies rd, rd.acc
    ensures rd.Valid() && fed' == rd.stream.fed && rd.acc == old(rd.acc) && rd.accLen == old(rd.accLen)
    ensures Watch(rd.stream, c') == Watched(Watch(old(rd.stream), c), call)
    ensures rd.frag == null || rd.frag == old(rd.frag) || fresh(rd.frag)
  {
    hide MpsReader.Valid, Ok, MpsStreams.Feed, MpsStreams.Get, MpsStreams.Commit, MpsStreams.Reclaim;
    rd.StreamOk();
    fed', c' := fed, c;
    match call {
      case FeedNull =>
        var code := rd.Feed(null, 0);
      case Feed(bytes) =>
        var buf := new byte[|bytes|](k requires 0 <= k < |bytes| => bytes[k]);
        assert buf[..|bytes|] == bytes;
        var code := rd.Feed(buf, |bytes|);
        fed' := if code == OperationUnexpected then fed else fed + bytes;
        FeedAppends(old(rd.stream), bytes);
      case Get(desired, exact) =>
        var code, buffer, offset, buflen := rd.Get(desired, exact);
        c' := if code == Success then c.(tentative := c.tentative + buffer[offset..offset + buflen]) else c;
        ReadingKeepsFed(old(rd.stream), desired, exact);
      case Commit =>
        var code := rd.Commit();
        c' := if code == Success then Consumer(c.committed + c.tentative, []) else c;
        ReadingKeepsFed(old(rd.stream), 0, false);
      case Reclaim =>
        var code, paused := rd.Reclaim();
        c' := if code == Success || code == DataLeft || code == AccumulatorTooSmall then c.(tentative := []) else c;
        ReadingKeepsFed(old(rd.stream), 0, false);
    }
  }

  lemma FeedAppends(s: Stream, frag: bytes)
    requires Ok(s)
    ensures var (s', code) := MpsStreams.Feed(s, frag);
      s'.fed == if code == OperationUnexpected then s.fed else s.fed + frag
  {
  }

  lemma ReadingKeepsFed(s: Stream, desired: nat, exact: bool)
    requires Ok(s)
    ensures MpsStreams.Get(s, desired, exact).0.fed == s.fed
    ensures MpsStreams.Commit(s).0.fed == MpsStreams.Reclaim(s).0.fed == s.fed
  {
  }

  /** The reader refines a byte stream. Over any sequence of calls, failing ones
      included, it does to its consumer what the stream does. So what the consumer has
      got and committed, followed by what it has got since, is a prefix of the
      concatenation of all fragments that feed has accepted; and whenever the reader is
      ready for more without waiting for it, every byte fed before has been got and
      committed. */
  method Run(accLen: Option<nat>, calls: seq<Call>) returns (fed: bytes, c: Consumer, unset: bool)
    requires accLen.Some? ==> accLen.value < SIZE_LIMIT
    requires forall i :: 0 <= i < |calls| ==> CallOk(calls[i], if accLen.Some? then accLen.value else 0)
    ensures var w := WatchedAll(accLen, calls);
      fed == w.stream.fed && c == w.consumer && unset == (!w.stream.attached && w.stream.missing == 0)
    ensures c.committed + c.tentative <= fed
    ensures unset ==> c.committed == fed && c.tentative == []
    ensures GetsServed(accLen, calls)
  {
    EachGetIsServed(accLen, calls);
    var acc: array?<byte> := null;
    var len: size := 0;
    if accLen.Some? {
      acc := new byte[accLen.value](_ => 0);
      len := accLen.value;
    }
    var rd := new MpsReader(acc, len);
    fed, c := [], Consumer([], []);
    for i := 0 to |calls|
      invariant fresh(rd) && rd.Valid() && rd.acc == acc && rd.accLen == len && (acc == null || fresh(acc))
      invariant rd.frag == null || fresh(rd.frag)
      invariant fed == rd.stream.fed && Watch(rd.stream, c) == WatchedAll(accLen, calls[..i])
    {
      assert calls[..i + 1][..i] == calls[..i];
      fed, c := Step(rd, calls[i], fed, c);
    }
    assert calls[..|calls|] == calls;
    WatchedTracks(accLen, calls);
    unset := rd.frag == null && !rd.IsAccumulating();
  }
}
