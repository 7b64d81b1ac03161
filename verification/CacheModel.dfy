/** The session cache on values: its chain of entries as a sequence, and the map with
    expiry that it stands for. */
module CacheModel {
  import opened Bytes

  const MAX_ID: nat := 32

  /** An entry without a session is blank: its ID is empty. */
  datatype Entry = Entry(id: bytes, timestamp: nat, session: Option<bytes>)

  predicate EntryOk(e: Entry)
  {
    (e.session == None ==> e.id == []) && |e.id| <= MAX_ID
  }

  predicate EntriesOk(s: seq<Entry>)
  {
    forall i :: 0 <= i < |s| ==> EntryOk(s[i])
  }

  /** The conversion to a 32-bit int. */
  function Int32(x: int): int
  {
    var m := x % 0x1_0000_0000;
    if m >= 0x8000_0000 then m - 0x1_0000_0000 else m
  }

  predicate Expired(timestamp: nat, t: nat, timeout: nat)
  {
    timeout != 0 && Int32(t - timestamp) > timeout
  }

  /** When an entry counts as expired, for any two times and any timeout: never for a timeout
      of 0, and else by the low 32 bits of the age, read as an int. */
  lemma ExpiredIff(timestamp: nat, t: nat, timeout: nat)
    ensures Expired(timestamp, t, timeout) <==>
      timeout > 0 && timeout < (t - timestamp) % 0x1_0000_0000 < 0x8000_0000
    ensures !Expired(timestamp, t, 0)
  {
  }

  /** The conversion does no harm at exactly these ages: up to the timeout, and whenever
      the low 32 bits of the age, read as an int, are still above it. */
  lemma ExpiredIsAge(timestamp: nat, t: nat, timeout: nat)
    requires timestamp <= t && 0 < timeout < 0x8000_0000
    ensures var age := t - timestamp;
      (Expired(timestamp, t, timeout) <==> age > timeout)
      <==> (age <= timeout || timeout < age % 0x1_0000_0000 < 0x8000_0000)
  {
  }

  /** So every entry that has expired comes back to life, the first time at 2^31 seconds. */
  lemma ExpiryIsNotForEver(timestamp: nat, timeout: nat, age: nat)
    requires 0 < timeout < 0x8000_0000 && age <= 0x8000_0000
    ensures Expired(timestamp, timestamp + age, timeout) <==> timeout < age < 0x8000_0000
  {
  }

  /** The first entry from i on that is not expired and has the ID. */
  function Find(s: seq<Entry>, id: bytes, t: nat, timeout: nat, i: nat): (k: Option<nat>)
    requires i <= |s|
    ensures match k
      case None => forall j :: i <= j < |s| ==> s[j].id != id || Expired(s[j].timestamp, t, timeout)
      case Some(n) =>
        && i <= n < |s| && s[n].id == id && !Expired(s[n].timestamp, t, timeout)
        && forall j :: i <= j < n ==> s[j].id != id || Expired(s[j].timestamp, t, timeout)
    decreases |s| - i
  {
    if i == |s| then None
    else if s[i].id == id && !Expired(s[i].timestamp, t, timeout) then Some(i)
    else Find(s, id, t, timeout, i + 1)
  }

  function FindId(s: seq<Entry>, id: bytes, i: nat): (k: Option<nat>)
    requires i <= |s|
    ensures match k
      case None => forall j :: i <= j < |s| ==> s[j].id != id
      case Some(n) => i <= n < |s| && s[n].id == id && forall j :: i <= j < n ==> s[j].id != id
    decreases |s| - i
  {
    if i == |s| then None else if s[i].id == id then Some(i) else FindId(s, id, i + 1)
  }

  function FindExpired(s: seq<Entry>, t: nat, timeout: nat, i: nat): (k: Option<nat>)
    requires i <= |s|
    ensures match k
      case None => forall j :: i <= j < |s| ==> !Expired(s[j].timestamp, t, timeout)
      case Some(n) =>
        && i <= n < |s| && Expired(s[n].timestamp, t, timeout)
        && forall j :: i <= j < n ==> !Expired(s[j].timestamp, t, timeout)
    decreases |s| - i
  {
    if i == |s| then None
    else if Expired(s[i].timestamp, t, timeout) then Some(i)
    else FindExpired(s, t, timeout, i + 1)
  }

  /** The search for the oldest entry, with 0 for none found yet. */
  function Oldest(s: seq<Entry>, i: nat, oldest: nat, at: nat): nat
    requires i <= |s|
    decreases |s| - i
  {
    if i == |s| then at
    else if oldest == 0 || s[i].timestamp < oldest then Oldest(s, i + 1, s[i].timestamp, i)
    else Oldest(s, i + 1, oldest, at)
  }

  /** Entry k has the smallest timestamp. */
  predicate IsOldest(s: seq<Entry>, k: nat)
  {
    k < |s| && forall j :: 0 <= j < |s| ==> s[k].timestamp <= s[j].timestamp
  }

  predicate IsFirstOldest(s: seq<Entry>, k: nat)
  {
    IsOldest(s, k) && forall j :: 0 <= j < k ==> s[k].timestamp < s[j].timestamp
  }

  predicate AllPositive(s: seq<Entry>)
  {
    forall j :: 0 <= j < |s| ==> s[j].timestamp > 0
  }

  lemma {:induction false} OldestIfPositive(s: seq<Entry>, i: nat, oldest: nat, at: nat)
    requires i <= |s| && AllPositive(s)
    requires if i == 0 then oldest == 0 && s != [] else at < i && s[at].timestamp == oldest
    requires i > 0 ==> forall j :: 0 <= j < i ==> oldest <= s[j].timestamp && (j < at ==> oldest < s[j].timestamp)
    ensures IsFirstOldest(s, Oldest(s, i, oldest, at))
    decreases |s| - i
  {
    if i < |s| {
      if oldest == 0 || s[i].timestamp < oldest {
        OldestIfPositive(s, i + 1, s[i].timestamp, i);
      } else {
        OldestIfPositive(s, i + 1, oldest, at);
      }
    }
  }

  /** The last entry is chosen once its timestamp is 0. */
  lemma {:induction false} OldestOfLastZero(s: seq<Entry>, i: nat, oldest: nat, at: nat)
    requires i < |s| && s[|s| - 1].timestamp == 0
    ensures Oldest(s, i, oldest, at) == |s| - 1
    decreases |s| - i
  {
    var taken := oldest == 0 || s[i].timestamp < oldest;
    if i < |s| - 1 {
      OldestOfLastZero(s, i + 1, if taken then s[i].timestamp else oldest, if taken then i else at);
    } else {
      assert Oldest(s, |s|, 0, i) == i;
    }
  }

  /** Behind a timestamp of 0 the search starts again, so with a positive last one it ends
      at a positive one. */
  lemma {:induction false} ZeroIsForgotten(s: seq<Entry>, i: nat, oldest: nat, at: nat)
    requires i <= |s| && s != [] && s[|s| - 1].timestamp > 0
    requires i == |s| ==> oldest > 0
    requires oldest > 0 ==> at < i && s[at].timestamp == oldest
    ensures var k := Oldest(s, i, oldest, at); k < |s| && s[k].timestamp > 0
    decreases |s| - i
  {
    if i < |s| {
      var taken := oldest == 0 || s[i].timestamp < oldest;
      ZeroIsForgotten(s, i + 1, if taken then s[i].timestamp else oldest, if taken then i else at);
    }
  }

  /** The search finds an oldest entry exactly when all timestamps are positive or the
      last one is 0; a 0 before that is taken for nothing found yet. */
  lemma {:induction false} OldestIsOldest(s: seq<Entry>)
    requires s != []
    ensures IsOldest(s, Oldest(s, 0, 0, 0)) <==> AllPositive(s) || s[|s| - 1].timestamp == 0
  {
    var n := |s| - 1;
    if s[n].timestamp == 0 {
      OldestOfLastZero(s, 0, 0, 0);
    } else if AllPositive(s) {
      OldestIfPositive(s, 0, 0, 0);
    } else {
      ZeroIsForgotten(s, 0, 0, 0);
    }
  }

  lemma {:induction false} OldestInRange(s: seq<Entry>, i: nat, oldest: nat, at: nat)
    requires i <= |s| && (if i == 0 then oldest == 0 && s != [] else at < i)
    ensures Oldest(s, i, oldest, at) < |s|
    decreases |s| - i
  {
    if i < |s| {
      if oldest == 0 || s[i].timestamp < oldest {
        OldestInRange(s, i + 1, s[i].timestamp, i);
      } else {
        OldestInRange(s, i + 1, oldest, at);
      }
    }
  }

  /** The slot ssl_cache_pick_writing_slot chooses; the length of s for a new one. */
  function Slot(s: seq<Entry>, id: bytes, t: nat, timeout: nat, max: nat): (k: Option<nat>)
    ensures k.Some? ==> k.value < |s| || (k.value == |s| < max)
    ensures k == None <==> s == [] && max == 0
  {
    if FindId(s, id, 0).Some? then FindId(s, id, 0)
    else if FindExpired(s, t, timeout, 0).Some? then FindExpired(s, t, timeout, 0)
    else if |s| < max then Some(|s|)
    else if s == [] then None
    else
      OldestInRange(s, 0, 0, 0);
      Some(Oldest(s, 0, 0, 0))
  }

  predicate HasId(s: seq<Entry>, id: bytes)
  {
    exists i :: 0 <= i < |s| && s[i].id == id
  }

  predicate AnyExpired(s: seq<Entry>, t: nat, timeout: nat)
  {
    exists i :: 0 <= i < |s| && Expired(s[i].timestamp, t, timeout)
  }

  /** With positive timestamps it is the first entry of the ID; without one, the first that
      has expired; without one, a new one; and when the cache is full, the first of the
      oldest, blank or not. */
  lemma SlotIsFirst(s: seq<Entry>, id: bytes, t: nat, timeout: nat, max: nat)
    requires AllPositive(s)
    ensures var k := Slot(s, id, t, timeout, max);
      if HasId(s, id) then
        k.Some? && k.value < |s| && s[k.value].id == id && !HasId(s[..k.value], id)
      else if AnyExpired(s, t, timeout) then
        && k.Some? && k.value < |s| && Expired(s[k.value].timestamp, t, timeout)
        && !AnyExpired(s[..k.value], t, timeout)
      else if |s| < max then k == Some(|s|)
      else if s == [] then k == None
      else k.Some? && IsFirstOldest(s, k.value)
  {
    hide Expired, Oldest, IsFirstOldest;
    if s != [] {
      OldestIfPositive(s, 0, 0, 0);
    }
  }

  function Put(s: seq<Entry>, k: nat, e: Entry): (r: seq<Entry>)
    requires k <= |s|
    ensures |r| == if k < |s| then |s| else |s| + 1
    ensures r[k] == e && forall i :: 0 <= i < |s| && i != k ==> r[i] == s[i]
  {
    if k < |s| then s[k := e] else s + [e]
  }

  function Delete(s: seq<Entry>, k: nat): seq<Entry>
    requires k < |s|
  {
    s[..k] + s[k + 1..]
  }

  // ---------- The cache on values

  datatype Op = Get(id: bytes) | Set(id: bytes, session: bytes) | Remove(id: bytes)
  datatype Event = Event(t: nat, op: Op)

  /** `victim` is the ID of the entry that is overwritten, empty for a blank one; None
      if there is none or it has the ID of the call. */
  datatype Answer =
    | Hit(session: bytes) | Miss | NoSession
    | Stored(victim: Option<bytes>) | TooLong(victim: Option<bytes>) | Full
    | Gone

  function Victim(s: seq<Entry>, id: bytes, k: nat): Option<bytes>
    requires k <= |s|
  {
    if k == |s| || s[k].id == id then None else Some(s[k].id)
  }

  /** What one call does to the chain, and its answer. */
  function Reply(s: seq<Entry>, e: Event, timeout: nat, max: nat): (seq<Entry>, Answer)
  {
    match e.op
    case Get(id) =>
      (match Find(s, id, e.t, timeout, 0)
       case None => (s, Miss)
       case Some(k) => (s, if s[k].session.Some? then Hit(s[k].session.value) else NoSession))
    case Set(id, session) =>
      (match Slot(s, id, e.t, timeout, max)
       case None => (s, Full)
       case Some(k) =>
         var v := Victim(s, id, k);
         if |id| > MAX_ID then (Put(s, k, Entry([], e.t, None)), TooLong(v))
         else (Put(s, k, Entry(id, e.t, Some(session))), Stored(v)))
    case Remove(id) =>
      (match Find(s, id, e.t, timeout, 0)
       case None => (s, Gone)
       case Some(k) => (Delete(s, k), Gone))
  }

  /** The chain and the answers after n events. */
  function Served(events: seq<Event>, timeout: nat, max: nat, n: nat): (r: (seq<Entry>, seq<Answer>))
    requires n <= |events|
    ensures |r.1| == n
  {
    if n == 0 then ([], [])
    else
      var (s, answers) := Served(events, timeout, max, n - 1);
      var (s', a) := Reply(s, events[n - 1], timeout, max);
      (s', answers + [a])
  }

  /** An ID that is too long is refused only after an entry has been given up for it: an
      entry is lost exactly when the cache is full or something has expired. */
  lemma TooLongCostsEntry(s: seq<Entry>, id: bytes, session: bytes, t: nat, timeout: nat, max: nat)
    requires EntriesOk(s) && |id| > MAX_ID && (s != [] || max > 0)
    ensures var (s', a) := Reply(s, Event(t, Set(id, session)), timeout, max);
      a.TooLong? && (a.victim.Some? <==> |s| >= max || FindExpired(s, t, timeout, 0).Some?)
    ensures var (s', a) := Reply(s, Event(t, Set(id, session)), timeout, max);
      a.victim.Some? ==> exists k :: 0 <= k < |s| && s[k].id == a.victim.value && s' == s[k := Entry([], t, None)]
  {
  }

  /** The empty ID is that of blank entries: a lookup of it fails with the error for an
      entry without a session exactly when one is there and not expired. */
  lemma EmptyIdIsBlank(s: seq<Entry>, t: nat, timeout: nat, max: nat)
    requires EntriesOk(s) && forall i :: 0 <= i < |s| ==> (s[i].id == [] ==> s[i].session == None)
    ensures var (s', a) := Reply(s, Event(t, Get([])), timeout, max);
      && s' == s && (a == NoSession || a == Miss)
      && (a == NoSession <==> exists i :: 0 <= i < |s| && s[i].session == None && !Expired(s[i].timestamp, t, timeout))
  {
  }

  // ---------- The map with expiry

  /** ID to session and time of storing, the number of entries, and how many are blank. */
  datatype Store = Store(live: map<bytes, (bytes, nat)>, used: nat, blanks: nat)

  function Blanks(s: seq<Entry>): (n: nat)
    ensures n <= |s|
  {
    if s == [] then 0 else Blanks(s[..|s| - 1]) + if s[|s| - 1].session == None then 1 else 0
  }

  /** Only blank entries have an empty ID, and no other ID is there twice. */
  predicate Tidy(s: seq<Entry>)
  {
    && (forall i :: 0 <= i < |s| ==> EntryOk(s[i]) && s[i].timestamp > 0 && (s[i].id == [] ==> s[i].session == None))
    && forall i, j :: 0 <= i < j < |s| && s[i].id == s[j].id ==> s[i].id == []
  }

  predicate Holds(s: seq<Entry>, m: Store)
  {
    && m.used == |s| && m.blanks == Blanks(s)
    && (forall i :: 0 <= i < |s| && s[i].session.Some? ==>
          s[i].id in m.live && m.live[s[i].id] == (s[i].session.value, s[i].timestamp))
    && forall id :: id in m.live ==> id != [] && exists i :: 0 <= i < |s| && s[i].id == id
  }

  predicate Alive(m: Store, id: bytes, t: nat, timeout: nat)
  {
    id in m.live && !Expired(m.live[id].1, t, timeout)
  }

  lemma FindIsLookup(s: seq<Entry>, m: Store, id: bytes, t: nat, timeout: nat)
    requires Tidy(s) && Holds(s, m) && id != []
    ensures var k := Find(s, id, t, timeout, 0);
      && (k.Some? <==> Alive(m, id, t, timeout))
      && (k.Some? ==> s[k.value].session == Some(m.live[id].0))
  {
    if Alive(m, id, t, timeout) {
      var i :| 0 <= i < |s| && s[i].id == id;
    }
  }

  /** What may be overwritten for the sake of another ID: something expired; or, when
      nothing is and the cache is full, one of the oldest. */
  predicate MayEvict(m: Store, victim: bytes, t: nat, timeout: nat, max: nat)
  {
    && victim in m.live
    && (Expired(m.live[victim].1, t, timeout)
        || (m.used >= max
            && forall id :: id in m.live ==> !Expired(m.live[id].1, t, timeout) && m.live[victim].1 <= m.live[id].1))
  }

  /** The victim that is reported is one that may be overwritten for the ID. */
  predicate VictimOk(m: Store, id: bytes, t: nat, timeout: nat, max: nat, victim: Option<bytes>)
  {
    match victim
    case None => id in m.live || m.used < max
    case Some(v) => v != id && id !in m.live && if v == [] then m.blanks > 0 else MayEvict(m, v, t, timeout, max)
  }

  function Without(live: map<bytes, (bytes, nat)>, victim: Option<bytes>): map<bytes, (bytes, nat)>
  {
    if victim.Some? then live - {victim.value} else live
  }

  function Next(m: Store, e: Event, a: Answer, timeout: nat): Store
  {
    match e.op
    case Get(_) => m
    case Set(id, session) =>
      (match a
       case Stored(v) =>
         Store(Without(m.live, v)[id := (session, e.t)],
               if v == None && id !in m.live then m.used + 1 else m.used,
               if v == Some([]) && m.blanks > 0 then m.blanks - 1 else m.blanks)
       case TooLong(v) =>
         Store(Without(m.live, v),
               if v == None then m.used + 1 else m.used,
               if v == Some([]) then m.blanks else m.blanks + 1)
       case _ => m)
    case Remove(id) =>
      if Alive(m, id, e.t, timeout) && m.used > 0 then m.(live := m.live - {id}, used := m.used - 1) else m
  }

  /** What the map with expiry would answer. */
  predicate Correct(m: Store, e: Event, a: Answer, timeout: nat, max: nat)
  {
    match e.op
    case Get(id) => a == if Alive(m, id, e.t, timeout) then Hit(m.live[id].0) else Miss
    case Set(id, session) =>
      if m.used == 0 && max == 0 then a == Full
      else if |id| > MAX_ID then a.TooLong? && VictimOk(m, id, e.t, timeout, max, a.victim)
      else a.Stored? && VictimOk(m, id, e.t, timeout, max, a.victim)
    case Remove(id) => a == Gone
  }

  lemma {:induction false} BlanksOfPut(s: seq<Entry>, k: nat, e: Entry)
    requires k <= |s|
    ensures Blanks(Put(s, k, e)) == Blanks(s) + (if e.session == None then 1 else 0)
      - if k < |s| && s[k].session == None then 1 else 0
    decreases |s|
  {
    var n := |s| - 1;
    if k == |s| {
      assert Put(s, k, e)[..|s|] == s;
    } else if k == n {
      assert Put(s, k, e)[..n] == s[..n];
    } else {
      assert Put(s, k, e)[..n] == Put(s[..n], k, e);
      BlanksOfPut(s[..n], k, e);
    }
  }

  lemma {:induction false} BlanksOfDelete(s: seq<Entry>, k: nat)
    requires k < |s|
    ensures Blanks(Delete(s, k)) == Blanks(s) - if s[k].session == None then 1 else 0
    decreases |s|
  {
    var n := |s| - 1;
    if k == n {
      assert Delete(s, k) == s[..n];
    } else {
      assert Delete(s, k)[..n - 1] == Delete(s[..n], k);
      BlanksOfDelete(s[..n], k);
    }
  }

  lemma {:induction false} BlankThere(s: seq<Entry>, k: nat)
    requires k < |s| && s[k].session == None
    ensures Blanks(s) > 0
    decreases |s|
  {
    if k < |s| - 1 {
      BlankThere(s[..|s| - 1], k);
    }
  }

  function Entered(live: map<bytes, (bytes, nat)>, e: Entry): map<bytes, (bytes, nat)>
  {
    if e.session.Some? then live[e.id := (e.session.value, e.timestamp)] else live
  }

  predicate NewEntry(s: seq<Entry>, k: nat, e: Entry)
  {
    && k <= |s| && e.timestamp > 0 && EntryOk(e) && (e.id == [] ==> e.session == None)
    && (e.id != [] ==> forall i :: 0 <= i < |s| && i != k ==> s[i].id != e.id)
  }

  lemma PutTidy(s: seq<Entry>, k: nat, e: Entry)
    requires Tidy(s) && NewEntry(s, k, e)
    ensures Tidy(Put(s, k, e))
  {
  }

  /** Entry k is overwritten: what it was is gone from the map, what it is now is there. */
  lemma {:induction false} PutHolds(s: seq<Entry>, m: Store, k: nat, e: Entry)
    requires Tidy(s) && Holds(s, m) && NewEntry(s, k, e)
    ensures var r := Put(s, k, e);
      var rest := if k < |s| then m.live - {s[k].id} else m.live;
      Holds(r, Store(Entered(rest, e), |r|, Blanks(r)))
  {
    hide Blanks;
    var r := Put(s, k, e);
    var live := Entered(if k < |s| then m.live - {s[k].id} else m.live, e);
    forall x | x in live
      ensures x != [] && exists i :: 0 <= i < |r| && r[i].id == x
    {
      if e.session.Some? && x == e.id {
        assert r[k].id == x;
      } else {
        var i :| 0 <= i < |s| && s[i].id == x;
        assert r[i].id == x;
      }
    }
    forall i | 0 <= i < |r| && r[i].session.Some?
      ensures r[i].id in live && live[r[i].id] == (r[i].session.value, r[i].timestamp)
    {
      if i != k {
        assert r[i] == s[i] && s[i].id != [];
      }
    }
  }

  lemma {:induction false} ChosenMayBeEvicted(s: seq<Entry>, m: Store, id: bytes, t: nat, timeout: nat, max: nat)
    requires Tidy(s) && Holds(s, m) && id != [] && Slot(s, id, t, timeout, max).Some?
    ensures VictimOk(m, id, t, timeout, max, Victim(s, id, Slot(s, id, t, timeout, max).value))
  {
    hide Expired, Oldest;
    var k := Slot(s, id, t, timeout, max).value;
    if id in m.live {
      var i :| 0 <= i < |s| && s[i].id == id;
      assert FindId(s, id, 0).Some?;
    }
    if k < |s| && s[k].id != id {
      if s[k].id == [] {
        BlankThere(s, k);
      } else if FindExpired(s, t, timeout, 0) == None {
        OldestIsOldest(s);
        forall x | x in m.live
          ensures !Expired(m.live[x].1, t, timeout) && m.live[s[k].id].1 <= m.live[x].1
        {
          var i :| 0 <= i < |s| && s[i].id == x;
        }
      }
    }
  }

  lemma OthersDiffer(s: seq<Entry>, id: bytes, t: nat, timeout: nat, max: nat)
    requires Tidy(s) && id != [] && Slot(s, id, t, timeout, max).Some?
    ensures var k := Slot(s, id, t, timeout, max).value; forall i :: 0 <= i < |s| && i != k ==> s[i].id != id
  {
  }

  /** Giving up slot k for the ID takes the victim out of the map, or the ID itself. */
  lemma SlotIsWithout(s: seq<Entry>, m: Store, id: bytes, k: nat, x: (bytes, nat))
    requires Tidy(s) && Holds(s, m) && id != [] && k <= |s|
    requires forall i :: 0 <= i < |s| && i != k ==> s[i].id != id
    ensures var rest := if k < |s| then m.live - {s[k].id} else m.live;
      var without := Without(m.live, Victim(s, id, k));
      rest[id := x] == without[id := x] && (|id| > MAX_ID ==> rest == without)
    ensures id in m.live <==> k < |s| && s[k].id == id
    ensures k < |s| ==> (s[k].session == None <==> s[k].id == [])
  {
    if id in m.live {
      var i :| 0 <= i < |s| && s[i].id == id;
    }
  }

  lemma CountsHold(s: seq<Entry>, m: Store, k: nat)
    requires Tidy(s) && Holds(s, m) && k <= |s|
    ensures m.used == |s| && m.blanks == Blanks(s)
    ensures k < |s| && s[k].session == None ==> m.blanks > 0
  {
    if k < |s| && s[k].session == None {
      BlankThere(s, k);
    }
  }

  lemma {:induction false} StoreRefines(
      s: seq<Entry>, m: Store, id: bytes, session: bytes, t: nat, k: nat, timeout: nat)
    requires Tidy(s) && Holds(s, m) && t > 0 && id != [] && |id| <= MAX_ID && k <= |s|
    requires forall i :: 0 <= i < |s| && i != k ==> s[i].id != id
    ensures var s' := Put(s, k, Entry(id, t, Some(session)));
      Tidy(s') && Holds(s', Next(m, Event(t, Set(id, session)), Stored(Victim(s, id, k)), timeout))
  {
    hide Tidy, Holds, Put, Blanks;
    var e := Entry(id, t, Some(session));
    CountsHold(s, m, k);
    PutTidy(s, k, e);
    PutHolds(s, m, k, e);
    BlanksOfPut(s, k, e);
    SlotIsWithout(s, m, id, k, (session, t));
  }

  lemma {:induction false} RefusalRefines(
      s: seq<Entry>, m: Store, id: bytes, session: bytes, t: nat, k: nat, timeout: nat)
    requires Tidy(s) && Holds(s, m) && t > 0 && |id| > MAX_ID && k <= |s|
    requires forall i :: 0 <= i < |s| && i != k ==> s[i].id != id
    ensures var s' := Put(s, k, Entry([], t, None));
      Tidy(s') && Holds(s', Next(m, Event(t, Set(id, session)), TooLong(Victim(s, id, k)), timeout))
  {
    hide Tidy, Holds, Put, Blanks;
    var e := Entry([], t, None);
    CountsHold(s, m, k);
    PutTidy(s, k, e);
    PutHolds(s, m, k, e);
    BlanksOfPut(s, k, e);
    SlotIsWithout(s, m, id, k, ([], 0));
  }

  /** Storing in the chosen slot is storing in the map; at most one ID is lost, and one
      that may be. An ID that is too long stores nothing, at the same price. */
  lemma {:induction false} SetRefines(
      s: seq<Entry>, m: Store, id: bytes, session: bytes, t: nat, timeout: nat, max: nat)
    requires Tidy(s) && Holds(s, m) && t > 0 && id != []
    ensures var e := Event(t, Set(id, session));
      var (s', a) := Reply(s, e, timeout, max);
      Tidy(s') && Correct(m, e, a, timeout, max) && Holds(s', Next(m, e, a, timeout)) &&
        |s'| <= if |s| < max then max else |s|
  {
    assert m.used == |s|;
    hide Tidy, Holds, Next, VictimOk, Slot, Put;
    var slot := Slot(s, id, t, timeout, max);
    if slot.Some? {
      OthersDiffer(s, id, t, timeout, max);
      ChosenMayBeEvicted(s, m, id, t, timeout, max);
      if |id| > MAX_ID {
        RefusalRefines(s, m, id, session, t, slot.value, timeout);
      } else {
        StoreRefines(s, m, id, session, t, slot.value, timeout);
      }
    }
  }

  lemma {:induction false} RemoveRefines(s: seq<Entry>, m: Store, id: bytes, t: nat, timeout: nat, max: nat)
    requires Tidy(s) && Holds(s, m) && id != []
    ensures var e := Event(t, Remove(id));
      var (s', a) := Reply(s, e, timeout, max);
      Tidy(s') && Correct(m, e, a, timeout, max) && Holds(s', Next(m, e, a, timeout)) && |s'| <= |s|
  {
    FindIsLookup(s, m, id, t, timeout);
    var found := Find(s, id, t, timeout, 0);
    if found.Some? {
      DeleteRefines(s, m, found.value);
    }
  }

  lemma DeleteTidy(s: seq<Entry>, k: nat)
    requires Tidy(s) && k < |s|
    ensures Tidy(Delete(s, k))
  {
    var r := Delete(s, k);
    assert forall i :: 0 <= i < |r| ==> r[i] == s[if i < k then i else i + 1];
  }

  lemma DeleteAt(s: seq<Entry>, k: nat)
    requires k < |s|
    ensures |Delete(s, k)| == |s| - 1
    ensures forall i :: 0 <= i < |s| - 1 ==> Delete(s, k)[i] == s[if i < k then i else i + 1]
  {
  }

  lemma StaysIn(s: seq<Entry>, k: nat, i: nat)
    requires k < |s| && i < |s| && i != k
    ensures exists j :: 0 <= j < |Delete(s, k)| && Delete(s, k)[j].id == s[i].id
  {
    assert Delete(s, k)[if i < k then i else i - 1].id == s[i].id;
  }

  lemma OtherIds(s: seq<Entry>, k: nat)
    requires Tidy(s) && k < |s| && s[k].session.Some?
    ensures forall j :: 0 <= j < |s| && j != k ==> s[j].id != s[k].id
  {
  }

  lemma {:induction false} DeleteRefines(s: seq<Entry>, m: Store, k: nat)
    requires Tidy(s) && Holds(s, m) && k < |s| && s[k].session.Some?
    ensures Tidy(Delete(s, k)) && Holds(Delete(s, k), Store(m.live - {s[k].id}, m.used - 1, m.blanks))
  {
    var r, live := Delete(s, k), m.live - {s[k].id};
    DeleteTidy(s, k);
    BlanksOfDelete(s, k);
    DeleteAt(s, k);
    OtherIds(s, k);
    hide Blanks, Delete, Tidy;
    forall i | 0 <= i < |r| && r[i].session.Some?
      ensures r[i].id in live && live[r[i].id] == (r[i].session.value, r[i].timestamp)
    {
      var j := if i < k then i else i + 1;
      assert r[i] == s[j] && s[j].id != s[k].id;
    }
    forall x | x in live
      ensures x != [] && exists i :: 0 <= i < |r| && r[i].id == x
    {
      var i :| 0 <= i < |s| && s[i].id == x;
      StaysIn(s, k, i);
    }
  }

  // ---------- A run against the map with expiry

  /** The map after n events. */
  function Replay(events: seq<Event>, answers: seq<Answer>, timeout: nat, n: nat): Store
    requires n <= |events| && n <= |answers|
  {
    if n == 0 then Store(map[], 0, 0)
    else Next(Replay(events, answers, timeout, n - 1), events[n - 1], answers[n - 1], timeout)
  }

  lemma {:induction false} ReplayPrefix(events: seq<Event>, a: seq<Answer>, b: seq<Answer>, timeout: nat, n: nat)
    requires n <= |events| && n <= |a| && a <= b
    ensures Replay(events, a, timeout, n) == Replay(events, b, timeout, n)
  {
    if n > 0 {
      ReplayPrefix(events, a, b, timeout, n - 1);
    }
  }

  predicate AllCorrect(events: seq<Event>, answers: seq<Answer>, timeout: nat, max: nat)
    requires |answers| <= |events|
  {
    forall n :: 0 <= n < |answers| ==> Correct(Replay(events, answers, timeout, n), events[n], answers[n], timeout, max)
  }

  predicate Bounded(events: seq<Event>, answers: seq<Answer>, timeout: nat, max: nat)
    requires |answers| <= |events|
  {
    forall n :: 0 <= n <= |answers| ==> Replay(events, answers, timeout, n).used <= max
  }

  predicate EventsOk(events: seq<Event>)
  {
    forall n :: 0 <= n < |events| ==> events[n].t > 0 && events[n].op.id != []
  }

  lemma {:induction false} ReplyRefines(s: seq<Entry>, m: Store, e: Event, timeout: nat, max: nat)
    requires Tidy(s) && Holds(s, m) && e.t > 0 && e.op.id != [] && |s| <= max
    ensures var (s', a) := Reply(s, e, timeout, max);
      && Tidy(s') && Correct(m, e, a, timeout, max) && Holds(s', Next(m, e, a, timeout))
      && Next(m, e, a, timeout).used == |s'| <= max
  {
    hide Tidy, Slot, Find;
    match e.op
    case Get(id) => FindIsLookup(s, m, id, e.t, timeout);
    case Set(id, session) => SetRefines(s, m, id, session, e.t, timeout, max);
    case Remove(id) => RemoveRefines(s, m, id, e.t, timeout, max);
  }

  lemma {:induction false} RunStep(events: seq<Event>, was: seq<Answer>, a: Answer, timeout: nat, max: nat)
    requires |was| < |events| && AllCorrect(events, was, timeout, max) && Bounded(events, was, timeout, max)
    requires var m := Replay(events, was, timeout, |was|);
      Correct(m, events[|was|], a, timeout, max) && Next(m, events[|was|], a, timeout).used <= max
    ensures AllCorrect(events, was + [a], timeout, max) && Bounded(events, was + [a], timeout, max)
    ensures Replay(events, was + [a], timeout, |was| + 1)
      == Next(Replay(events, was, timeout, |was|), events[|was|], a, timeout)
  {
    hide Correct, Next;
    forall k | 0 <= k <= |was|
      ensures Replay(events, was, timeout, k) == Replay(events, was + [a], timeout, k)
    {
      ReplayPrefix(events, was, was + [a], timeout, k);
    }
  }

  /** With non-empty IDs and positive times, however long the IDs are, the cache answers
      as the map with expiry does, and never has more than `max` entries. */
  lemma {:induction false} ServedRefines(events: seq<Event>, timeout: nat, max: nat, n: nat)
    requires EventsOk(events) && n <= |events|
    ensures var (s, answers) := Served(events, timeout, max, n);
      && Tidy(s) && Holds(s, Replay(events, answers, timeout, n)) && |s| <= max
      && AllCorrect(events, answers, timeout, max) && Bounded(events, answers, timeout, max)
  {
    hide Reply, Next, Correct, Tidy, AllCorrect, Bounded, Replay, Holds;
    if n == 0 {
      EmptyRun(events, timeout, max);
    } else {
      ServedRefines(events, timeout, max, n - 1);
      var (s, was) := Served(events, timeout, max, n - 1);
      var (s', a) := Reply(s, events[n - 1], timeout, max);
      ReplyRefines(s, Replay(events, was, timeout, n - 1), events[n - 1], timeout, max);
      RunStep(events, was, a, timeout, max);
    }
  }

  lemma EmptyRun(events: seq<Event>, timeout: nat, max: nat)
    ensures Tidy([]) && Holds([], Replay(events, [], timeout, 0))
    ensures AllCorrect(events, [], timeout, max) && Bounded(events, [], timeout, max)
  {
  }

  /** Event n takes the ID out of the map or gives it another session. */
  predicate Disturbs(e: Event, a: Answer, id: bytes)
  {
    match e.op
    case Get(_) => false
    case Set(x, _) => (a.Stored? && (x == id || a.victim == Some(id))) || (a.TooLong? && a.victim == Some(id))
    case Remove(x) => x == id
  }

  /** Event i is the last one to store under the ID before event j. */
  predicate LastStored(events: seq<Event>, answers: seq<Answer>, id: bytes, i: nat, j: nat)
    requires i < j <= |answers| <= |events|
  {
    && events[i].op.Set? && events[i].op.id == id && answers[i].Stored?
    && forall n :: i < n < j ==> !Disturbs(events[n], answers[n], id)
  }

  lemma {:induction false} StoredStays(
      events: seq<Event>, answers: seq<Answer>, timeout: nat, id: bytes, i: nat, j: nat)
    requires i < j <= |answers| <= |events| && LastStored(events, answers, id, i, j)
    ensures var m := Replay(events, answers, timeout, j).live; id in m && m[id] == (events[i].op.session, events[i].t)
    decreases j
  {
    if i < j - 1 {
      StoredStays(events, answers, timeout, id, i, j - 1);
      assert !Disturbs(events[j - 1], answers[j - 1], id);
    }
  }

  /** A lookup finds what was stored last, unless that has been overwritten as the
      victim, removed, or has timed out. */
  lemma GetFindsLastStored(events: seq<Event>, answers: seq<Answer>, timeout: nat, max: nat, id: bytes, i: nat, j: nat)
    requires i < j < |answers| <= |events|
    requires Correct(Replay(events, answers, timeout, j), events[j], answers[j], timeout, max)
    requires LastStored(events, answers, id, i, j) && events[j].op == Get(id)
    ensures answers[j] == if Expired(events[i].t, events[j].t, timeout) then Miss else Hit(events[i].op.session)
  {
    StoredStays(events, answers, timeout, id, i, j);
  }

  lemma {:induction false} StoredSomeTime(events: seq<Event>, answers: seq<Answer>, timeout: nat, id: bytes, j: nat)
    returns (i: nat)
    requires j <= |answers| <= |events| && id in Replay(events, answers, timeout, j).live
    ensures i < j && events[i].op.Set? && events[i].op.id == id && answers[i].Stored?
    ensures Replay(events, answers, timeout, j).live[id] == (events[i].op.session, events[i].t)
    decreases j
  {
    var e, a := events[j - 1], answers[j - 1];
    if e.op.Set? && a.Stored? && e.op.id == id {
      i := j - 1;
    } else {
      i := StoredSomeTime(events, answers, timeout, id, j - 1);
    }
  }

  /** And nothing is ever found that was not stored under the ID and is still alive. */
  lemma HitWasStored(events: seq<Event>, answers: seq<Answer>, timeout: nat, max: nat, id: bytes, j: nat)
    requires j < |answers| <= |events|
    requires Correct(Replay(events, answers, timeout, j), events[j], answers[j], timeout, max)
    requires events[j].op == Get(id) && answers[j].Hit?
    ensures exists i ::
      0 <= i < j && events[i].op == Set(id, answers[j].session) && !Expired(events[i].t, events[j].t, timeout)
  {
    var i := StoredSomeTime(events, answers, timeout, id, j);
  }
}
