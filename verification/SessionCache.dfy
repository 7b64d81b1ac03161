/** The session cache: a linked list of entries, searched, overwritten and relinked. */
module SessionCaches {
  import opened Bytes
  import opened CacheModel

  datatype Error = NotFound | BadInput | InternalError | BadSession
  datatype Result<T> = Ok(value: T) | Err(error: Error)

  class Node {
    var id: bytes
    var timestamp: nat
    var session: Option<bytes>
    var next: Node?

    constructor ()
      ensures id == [] && timestamp == 0 && session == None && next == null
    {
      id, timestamp, session, next := [], 0, None, null;
    }

    function Value(): Entry
      reads this
    {
      Entry(id, timestamp, session)
    }

    /** Free what the entry had, if anything, and stamp it; the link stays. */
    method Claim(t: nat)
      requires EntryOk(Value())
      modifies this
      ensures Value() == Entry([], t, None) && next == old(next)
    {
      if session != None {
        var rest := next;
        Zeroize();
        next := rest;
      }
      timestamp := t;
    }

    /** ssl_cache_entry_zeroize */
    method Zeroize()
      modifies this
      ensures id == [] && timestamp == 0 && session == None && next == null
    {
      id, timestamp, session, next := [], 0, None, null;
    }
  }

  /** The nodes are linked in this order, each of them once. */
  ghost predicate Linked(chain: Node?, spine: seq<Node>)
    reads spine
  {
    && chain == (if spine == [] then null else spine[0])
    && (forall i, j :: 0 <= i < j < |spine| ==> spine[i] != spine[j])
    && forall i {:trigger spine[i].next} :: 0 <= i < |spine| ==>
      spine[i].next == if i + 1 < |spine| then spine[i + 1] else null
  }

  lemma SameNode(chain: Node?, spine: seq<Node>, i: nat, j: nat)
    requires Linked(chain, spine) && i < |spine| && j < |spine| && spine[i] == spine[j]
    ensures i == j
  {
  }

  lemma Links(chain: Node?, spine: seq<Node>)
    requires Linked(chain, spine)
    ensures chain == At(spine, 0)
    ensures forall i {:trigger spine[i].next} :: 0 <= i < |spine| ==> spine[i].next == At(spine, i + 1)
    ensures forall i, j :: 0 <= i < |spine| && 0 <= j < |spine| && i != j ==> spine[i] != spine[j]
  {
  }

  ghost function Values(spine: seq<Node>): (s: seq<Entry>)
    reads spine
    ensures |s| == |spine| && forall i :: 0 <= i < |spine| ==> s[i] == spine[i].Value()
  {
    seq(|spine|, i requires 0 <= i < |spine| reads spine => spine[i].Value())
  }

  ghost function At(spine: seq<Node>, i: nat): Node?
  {
    if i < |spine| then spine[i] else null
  }

  class SessionCache {
    var chain: Node?
    var timeout: nat
    var max: nat
    ghost var spine: seq<Node>

    ghost predicate Valid()
      reads this, spine
    {
      Linked(chain, spine) && EntriesOk(Contents())
    }

    ghost function Contents(): seq<Entry>
      reads this, spine
    {
      Values(spine)
    }

    constructor (timeout: nat, max: nat)
      ensures Valid() && spine == [] && this.timeout == timeout && this.max == max
    {
      chain, this.timeout, this.max, spine := null, timeout, max, [];
    }

    /** ssl_cache_find_entry */
    method FindEntry(id: bytes, t: nat) returns (cur: Node?, ghost k: nat)
      requires Valid()
      ensures match Find(Contents(), id, t, timeout, 0)
        case None => cur == null
        case Some(n) => cur == spine[n]
      ensures k <= |spine| && cur == At(spine, k)
      ensures Find(Contents(), id, t, timeout, 0) == if cur == null then None else Some(k)
    {
      hide Linked;
      Links(chain, spine);
      cur, k := chain, 0;
      ghost var s := Contents();
      while cur != null
        invariant k <= |spine| && cur == At(spine, k)
        invariant Find(s, id, t, timeout, 0) == Find(s, id, t, timeout, k)
        decreases |spine| - k
      {
        assert s[k] == cur.Value();
        if !Expired(cur.timestamp, t, timeout) && cur.id == id {
          return;
        }
        cur, k := cur.next, k + 1;
      }
    }

    /** mbedtls_ssl_cache_get; a blank entry has nothing to load a session from. */
    method Get(id: bytes, t: nat) returns (r: Result<bytes>)
      requires Valid()
      ensures r == match Find(Contents(), id, t, timeout, 0)
        case None => Err(NotFound)
        case Some(k) => match Contents()[k].session
          case None => Err(BadSession)
          case Some(session) => Ok(session)
    {
      var cur, _ := FindEntry(id, t);
      r := if cur == null then Err(NotFound)
           else match cur.session case None => Err(BadSession) case Some(session) => Ok(session);
    }

    /** The entry that has the ID; without one, the last entry and the length of the chain. */
    method FindSameId(id: bytes) returns (cur: Node?, last: Node?, count: nat, ghost k: nat)
      requires Valid()
      ensures k <= |spine| && cur == At(spine, k)
      ensures FindId(Contents(), id, 0) == if cur == null then None else Some(k)
      ensures cur == null ==> count == |spine| && last == if spine == [] then null else spine[|spine| - 1]
    {
      hide Linked;
      Links(chain, spine);
      cur, last, count, k := chain, null, 0, 0;
      while cur != null
        invariant k <= |spine| && cur == At(spine, k) && count == k
        invariant last == if k == 0 then null else spine[k - 1]
        invariant FindId(Contents(), id, 0) == FindId(Contents(), id, k)
        decreases |spine| - k
      {
        count := count + 1;
        if cur.id == id {
          return;
        }
        last := cur;
        cur, k := cur.next, k + 1;
      }
    }

    /** The first entry that has expired; without one, the entry taken for the oldest. */
    method FindOutdated(t: nat) returns (cur: Node?, oldest: Node?, ghost k: nat)
      requires Valid()
      ensures k <= |spine| && cur == At(spine, k)
      ensures FindExpired(Contents(), t, timeout, 0) == if cur == null then None else Some(k)
      ensures cur == null && spine != [] ==>
        Oldest(Contents(), 0, 0, 0) < |spine| && oldest == spine[Oldest(Contents(), 0, 0, 0)]
      ensures cur == null && spine == [] ==> oldest == null
    {
      var oldestTime: nat := 0;
      ghost var at: nat := 0;
      hide Linked, EntriesOk, Expired;
      Links(chain, spine);
      ghost var s := Contents();
      cur, oldest, k := chain, null, 0;
      while cur != null
        invariant k <= |spine| && cur == At(spine, k)
        invariant if k == 0 then oldestTime == 0 && oldest == null else at < k && oldest == spine[at]
        invariant FindExpired(s, t, timeout, 0) == FindExpired(s, t, timeout, k)
        invariant Oldest(s, 0, 0, 0) == Oldest(s, k, oldestTime, at)
        decreases |spine| - k
      {
        assert s[k] == cur.Value();
        if Expired(cur.timestamp, t, timeout) {
          return;
        }
        if oldestTime == 0 || cur.timestamp < oldestTime {
          oldestTime, oldest := cur.timestamp, cur;
          at := k;
        }
        cur, k := cur.next, k + 1;
      }
    }

    /** Append a new entry to the end of the list. */
    method Append(last: Node?, t: nat) returns (cur: Node)
      requires Valid() && last == if spine == [] then null else spine[|spine| - 1]
      modifies this`chain, this`spine, spine
      ensures Valid() && fresh(cur) && spine == old(spine) + [cur] && cur.session == None && cur.id == []
      ensures forall i :: 0 <= i < |old(spine)| ==> Contents()[i] == old(Contents()[i])
    {
      hide Linked;
      Links(chain, spine);
      ghost var s := Contents();
      cur := new Node();
      if last == null {
        chain := cur;
      } else {
        last.next := cur;
      }
      spine := spine + [cur];
      Rebuilt(s + [Entry([], 0, None)]);
    }

    /** The nodes are linked as they should be, and have these values. */
    lemma Rebuilt(s: seq<Entry>)
      requires chain == At(spine, 0) && |s| == |spine| && EntriesOk(s)
      requires forall i, j :: 0 <= i < |spine| && 0 <= j < |spine| && i != j ==> spine[i] != spine[j]
      requires forall i {:trigger spine[i].next} :: 0 <= i < |spine| ==> spine[i].next == At(spine, i + 1)
      requires forall i :: 0 <= i < |spine| ==> spine[i].Value() == s[i]
      ensures Valid() && Contents() == s
    {
    }

    /** Entry k is the only one that changed. */
    lemma OnlyEntry(s: seq<Entry>, k: nat)
      requires chain == At(spine, 0) && |s| == |spine| && EntriesOk(s) && k < |spine| && EntryOk(spine[k].Value())
      requires forall i, j :: 0 <= i < |spine| && 0 <= j < |spine| && i != j ==> spine[i] != spine[j]
      requires forall i {:trigger spine[i].next} :: 0 <= i < |spine| ==> spine[i].next == At(spine, i + 1)
      requires forall i :: 0 <= i < |spine| && i != k ==> spine[i].Value() == s[i]
      ensures Valid() && Contents() == Put(s, k, spine[k].Value())
    {
      Rebuilt(Put(s, k, spine[k].Value()));
    }

    /** The entry to overwrite, a new one if there is space. */
    method FindSlot(id: bytes, t: nat) returns (cur: Node?, appended: bool, ghost k: nat)
      requires Valid()
      modifies this`chain, this`spine, spine
      ensures Valid() && old(spine) <= spine && forall n :: n in spine && n !in old(spine) ==> fresh(n)
      ensures forall i :: 0 <= i < |old(spine)| ==> Contents()[i] == old(Contents()[i])
      ensures match Slot(old(Contents()), id, t, timeout, max)
        case None => cur == null && spine == old(spine)
        case Some(n) =>
          && k == n < |spine| && cur == spine[k]
          && |spine| == if n < |old(spine)| then |old(spine)| else n + 1
      ensures cur != null ==> appended == (k == |old(spine)|)
    {
      ghost var s := Contents();
      hide Linked, FindId, FindExpired, Oldest, EntriesOk;
      var last, count, oldest;
      appended := false;
      cur, last, count, k := FindSameId(id);
      if cur == null {
        cur, oldest, k := FindOutdated(t);
        if cur == null {
          if count < max {
            k := |spine|;
            cur := Append(last, t);
            appended := true;
          } else {
            cur := oldest;
            k := if spine == [] then 0 else Oldest(s, 0, 0, 0);
          }
        }
      }
    }

    /** ssl_cache_pick_writing_slot; `victim` is the ID that is given up, if any. */
    method PickWritingSlot(id: bytes, t: nat) returns (cur: Node?, victim: Option<bytes>, ghost k: nat)
      requires Valid()
      modifies this`chain, this`spine, spine
      ensures Valid() && forall n :: n in spine && n !in old(spine) ==> fresh(n)
      ensures match Slot(old(Contents()), id, t, timeout, max)
        case None => cur == null && Contents() == old(Contents())
        case Some(n) => k == n < |spine| && cur == spine[k] && Contents() == Put(old(Contents()), n, Entry([], t, None))
      ensures cur != null ==> k <= |old(spine)| && victim == Victim(old(Contents()), id, k)
    {
      hide Linked, Slot;
      var appended;
      cur, appended, k := FindSlot(id, t);
      victim := None;
      if cur != null {
        if !appended && cur.id != id {
          victim := Some(cur.id);
        }
        assert !appended ==> cur.Value() == old(Contents())[k];
        assert EntryOk(Contents()[k]) && cur in spine;
        Links(chain, spine);
        ghost var s := Contents();
        cur.Claim(t);
        OnlyEntry(s, k);
      }
    }

    /** mbedtls_ssl_cache_set. An ID that is too long is refused only after an entry has
        been given up for it. */
    method Set(id: bytes, session: bytes, t: nat) returns (err: Option<Error>, victim: Option<bytes>)
      requires Valid()
      modifies this`chain, this`spine, spine
      ensures Valid() && forall n :: n in spine && n !in old(spine) ==> fresh(n)
      ensures match Slot(old(Contents()), id, t, timeout, max)
        case None => err == Some(InternalError) && Contents() == old(Contents())
        case Some(k) =>
          if |id| > MAX_ID then err == Some(BadInput) && Contents() == Put(old(Contents()), k, Entry([], t, None))
          else err == None && Contents() == Put(old(Contents()), k, Entry(id, t, Some(session)))
      ensures err != Some(InternalError) ==>
        victim == Victim(old(Contents()), id, Slot(old(Contents()), id, t, timeout, max).value)
    {
      hide Linked, Slot, Victim;
      var cur, given, k := PickWritingSlot(id, t);
      victim := given;
      if cur == null {
        return Some(InternalError), None;
      }
      if |id| > MAX_ID {
        return Some(BadInput), victim;
      }
      assert cur in spine;
      Links(chain, spine);
      ghost var s := Contents();
      cur.id := id;
      cur.session := Some(session);
      OnlyEntry(s, k);
      return None, victim;
    }

    /** Node k is not linked any more, all others are as they were. */
    lemma Unlinked(was: seq<Node>, s: seq<Entry>, k: nat)
      requires k < |was| == |s| && EntriesOk(s) && spine == was[..k] + was[k + 1..]
      requires forall i, j :: 0 <= i < |was| && 0 <= j < |was| && i != j ==> was[i] != was[j]
      requires forall i :: 0 <= i < |was| && i != k ==> was[i].Value() == s[i]
      requires forall i {:trigger was[i].next} :: 0 <= i < |was| && i != k && i + 1 != k ==>
        was[i].next == At(was, i + 1)
      requires k > 0 ==> was[k - 1].next == At(was, k + 1)
      requires chain == if k == 0 then At(was, 1) else was[0]
      ensures Valid() && Contents() == Delete(s, k)
    {
      hide EntryOk;
      forall i | 0 <= i < |spine|
        ensures spine[i].next == At(spine, i + 1)
        ensures spine[i].Value() == Delete(s, k)[i]
      {
        var j := if i < k then i else i + 1;
        assert spine[i] == was[j] && was[j].Value() == s[j] && Delete(s, k)[i] == s[j];
      }
      Rebuilt(Delete(s, k));
    }

    /** mbedtls_ssl_cache_remove */
    method Remove(id: bytes, t: nat)
      requires Valid()
      modifies this`chain, this`spine, spine
      ensures Valid() && forall n :: n in spine ==> n in old(spine)
      ensures match Find(old(Contents()), id, t, timeout, 0)
        case None => Contents() == old(Contents())
        case Some(k) => Contents() == Delete(old(Contents()), k)
    {
      hide Linked, Find, EntriesOk, Delete;
      var entry, k := FindEntry(id, t);
      if entry == null {
        return;
      }
      ghost var was, s := spine, Contents();
      Links(chain, was);
      if entry == chain {
        assert k == 0;
        chain := entry.next;
      } else {
        var prev := chain;
        ghost var i: nat := 0;
        while prev.next != entry
          invariant 0 <= i < k && prev == spine[i]
          decreases k - i
        {
          prev := prev.next;
          i := i + 1;
        }
        SameNode(chain, was, i + 1, k);
        prev.next := entry.next;
      }
      spine := was[..k] + was[k + 1..];
      entry.Zeroize();
      Unlinked(was, s, k);
    }
  }

  /** A run of the cache answers as its specification on values; and so, with non-empty
      IDs and positive times, as the map with expiry, with at most `max` entries. */
  method Serve(timeout: nat, max: nat, events: seq<Event>) returns (answers: seq<Answer>)
    ensures answers == Served(events, timeout, max, |events|).1
    ensures EventsOk(events) ==> AllCorrect(events, answers, timeout, max) && Bounded(events, answers, timeout, max)
  {
    hide Linked, Reply, Values, AllCorrect, Bounded, EventsOk;
    var cache := new SessionCache(timeout, max);
    answers := [];
    for n := 0 to |events|
      invariant cache.Valid() && fresh(cache) && (forall x :: x in cache.spine ==> fresh(x))
      invariant cache.timeout == timeout && cache.max == max
      invariant (cache.Contents(), answers) == Served(events, timeout, max, n)
    {
      assert forall i :: 0 <= i < |cache.spine| ==> cache.spine[i] in cache.spine;
      var a := Apply(cache, events[n]);
      answers := answers + [a];
    }
    if EventsOk(events) {
      ServedRefines(events, timeout, max, |events|);
    }
  }

  /** One event at the cache. */
  method Apply(cache: SessionCache, e: Event) returns (a: Answer)
    requires cache.Valid()
    modifies cache`chain, cache`spine, cache.spine
    ensures cache.Valid() && forall x :: x in cache.spine && x !in old(cache.spine) ==> fresh(x)
    ensures (cache.Contents(), a) == Reply(old(cache.Contents()), e, cache.timeout, cache.max)
  {
    hide Linked, Expired, Values;
    match e.op
    case Get(id) =>
      var r := cache.Get(id, e.t);
      a := match r case Ok(session) => Hit(session) case Err(error) => if error == NotFound then Miss else NoSession;
    case Set(id, session) =>
      var err, victim := cache.Set(id, session, e.t);
      a := if err == None then Stored(victim) else if err == Some(BadInput) then TooLong(victim) else Full;
    case Remove(id) =>
      cache.Remove(id, e.t);
      a := Gone;
  }
}
