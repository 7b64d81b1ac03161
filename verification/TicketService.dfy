/** A server's whole life with session tickets: what it answers, and how long a ticket
    stays good while the keys rotate. */
module TicketService {
  import opened Bytes
  import opened Tickets

  datatype Op = Issue(session: Session, room: nat) | Present(ticket: bytes)
  datatype Event = Event(now: nat, random: Random, op: Op)
  datatype Answer = Issued(ticket: bytes) | Resumed(session: Session) | Refused(error: Error)

  /** The keys of a server, the active one among them. */
  datatype Server = Server(keys: seq<Key>, active: nat)

  predicate ServerOk(s: Server)
  {
    KeysOk(s.keys) && s.active < 2
  }

  function Fresh(lifetime: nat, start: nat, first: Random, second: Random): Server
  {
    var t := Seconds(start);
    Server([Key(first.name, t, lifetime, first.key), Key(second.name, t, lifetime, second.key)], 0)
  }

  function UpToDate(s: Server, lifetime: nat, e: Event): Server
    requires ServerOk(s)
  {
    var (keys, active) := Updated(s.keys, s.active, lifetime, Seconds(e.now), e.random);
    Server(keys, active)
  }

  /** One call, and its answer; a call that fails at once brings no key up to date. */
  function Reply(env: Env, lifetime: nat, s: Server, e: Event): (r: (Server, Answer))
    requires ServerOk(s) && RandomOk(e.random)
    ensures ServerOk(r.0)
  {
    match e.op
    case Issue(session, room) =>
      if room < MIN_LEN then (s, Refused(BufferTooSmall))
      else
        var t := UpToDate(s, lifetime, e);
        var clear := env.save(session);
        (t, if !HasRoom(env, session, room) then Refused(BufferTooSmall)
            else if |clear| > 0xffff then Issued([])
            else Issued(Ticket(env, t.keys[t.active], e.random.iv, clear)))
    case Present(ticket) =>
      if |ticket| < MIN_LEN then (s, Refused(BadInput))
      else
        var t := UpToDate(s, lifetime, e);
        (t, match Parsed(env, t.keys, ticket, e.now)
            case Ok(session) => Resumed(session)
            case Err(error) => Refused(error))
  }

  predicate DrawsOk(events: seq<Event>)
  {
    forall i :: 0 <= i < |events| ==> RandomOk(events[i].random)
  }

  /** The server and its answers after n events. */
  function Served(env: Env, lifetime: nat, s: Server, events: seq<Event>, n: nat): (r: (Server, seq<Answer>))
    requires ServerOk(s) && n <= |events| && DrawsOk(events)
    ensures ServerOk(r.0) && |r.1| == n
  {
    if n == 0 then (s, [])
    else
      var (t, answers) := Served(env, lifetime, s, events, n - 1);
      var (u, a) := Reply(env, lifetime, t, events[n - 1]);
      (u, answers + [a])
  }

  /** All answers of a server in its life. */
  function Answers(
      env: Env, lifetime: nat, start: nat, first: Random, second: Random, events: seq<Event>): seq<Answer>
    requires RandomOk(first) && RandomOk(second) && DrawsOk(events)
  {
    Served(env, lifetime, Fresh(lifetime, start, first, second), events, |events|).1
  }

  /** The clock does not go back and no key name is drawn twice. */
  predicate EventsOk(start: nat, first: Random, second: Random, events: seq<Event>)
  {
    && RandomOk(first) && RandomOk(second) && first.name != second.name
    && DrawsOk(events) && (forall i :: 0 <= i < |events| ==> start <= events[i].now)
    && (forall i, j :: 0 <= i < j < |events| ==> events[i].now <= events[j].now)
    && (forall i :: 0 <= i < |events| ==> events[i].random.name != first.name && events[i].random.name != second.name)
    && forall i, j :: 0 <= i < j < |events| ==> events[i].random.name != events[j].random.name
  }

  /** The key of a ticket written at second `issued` is in one of the slots: in the
      active one, young enough when the ticket was written, or in the other one, and
      then the active key is younger than the ticket; until the ticket has had its time. */
  predicate Kept(keys: seq<Key>, active: nat, key: Key, issued: nat, lifetime: nat, now: nat)
    requires |keys| == 2 && active < 2
  {
    || now > issued + lifetime
    || (keys[active] == key && (lifetime == 0 || issued < key.generated + lifetime))
    || (keys[1 - active] == key && issued < keys[active].generated)
  }

  predicate Uniform(keys: seq<Key>, lifetime: nat, now: nat)
  {
    forall i :: 0 <= i < |keys| ==> keys[i].lifetime == lifetime && keys[i].generated <= now
  }

  /** At most one rotation can fall into the life of a ticket. */
  lemma {:induction false} UpdateKeeps(
      keys: seq<Key>, active: nat, key: Key, issued: nat, lifetime: nat, before: nat, now: nat, random: Random)
    requires |keys| == 2 && active < 2 && before <= now && Uniform(keys, lifetime, before) && issued <= before
    requires Kept(keys, active, key, issued, lifetime, before)
    ensures var (keys', active') := Updated(keys, active, lifetime, now, random);
      Uniform(keys', lifetime, now) && Kept(keys', active', key, issued, lifetime, now)
  {
  }

  /** A ticket that is written now is kept. */
  lemma UpdateKeepsNew(keys: seq<Key>, active: nat, lifetime: nat, before: nat, now: nat, random: Random)
    requires |keys| == 2 && active < 2 && before <= now && Uniform(keys, lifetime, before)
    ensures var (keys', active') := Updated(keys, active, lifetime, now, random);
      Uniform(keys', lifetime, now) && Kept(keys', active', keys'[active'], now, lifetime, now)
  {
  }

  /** The names in the slots were drawn before event n. */
  predicate Drawn(keys: seq<Key>, first: Random, second: Random, events: seq<Event>, n: nat)
    requires n <= |events| && KeysOk(keys)
  {
    && Distinct(keys)
    && forall i :: 0 <= i < 2 ==> DrawnBefore(keys[i].name, first, second, events, n)
  }

  predicate DrawnBefore(name: bytes, first: Random, second: Random, events: seq<Event>, n: nat)
    requires n <= |events|
  {
    name == first.name || name == second.name || exists j :: 0 <= j < n && events[j].random.name == name
  }

  lemma UpdateDraws(
      keys: seq<Key>, active: nat, lifetime: nat, now: nat, start: nat, first: Random, second: Random,
      events: seq<Event>, n: nat)
    requires EventsOk(start, first, second, events) && n < |events| && KeysOk(keys) && active < 2
    requires Drawn(keys, first, second, events, n)
    ensures var keys' := Updated(keys, active, lifetime, now, events[n].random).0;
      KeysOk(keys') && Drawn(keys', first, second, events, n + 1)
  {
    var name := events[n].random.name;
    assert !DrawnBefore(name, first, second, events, n);
    assert DrawnBefore(name, first, second, events, n + 1);
    forall i | 0 <= i < 2
      ensures DrawnBefore(keys[i].name, first, second, events, n + 1)
    {
      assert DrawnBefore(keys[i].name, first, second, events, n);
    }
  }

  /** Name and secret were drawn together: at the start, or in one of the first n events,
      at the time the key says. */
  predicate DrawnTogether(k: Key, lifetime: nat, start: nat, first: Random, second: Random, events: seq<Event>, n: nat)
    requires n <= |events|
  {
    || k == Key(first.name, Seconds(start), lifetime, first.key)
    || k == Key(second.name, Seconds(start), lifetime, second.key)
    || exists j :: 0 <= j < n && IsKeyOf(k, lifetime, events[j])
  }

  predicate AllDrawn(
    keys: seq<Key>, lifetime: nat, start: nat, first: Random, second: Random, events: seq<Event>, n: nat)
    requires n <= |events|
  {
    forall k :: k in keys ==> DrawnTogether(k, lifetime, start, first, second, events, n)
  }

  predicate IsKeyOf(k: Key, lifetime: nat, e: Event)
  {
    k == Key(e.random.name, Seconds(e.now), lifetime, e.random.key)
  }

  lemma ReplyKeys(env: Env, lifetime: nat, s: Server, e: Event)
    requires ServerOk(s) && RandomOk(e.random)
    ensures var t := Reply(env, lifetime, s, e).0;
      forall k :: k in t.keys ==> k in s.keys || IsKeyOf(k, lifetime, e)
  {
    hide Parsed, Ticket, HasRoom, Due;
  }

  lemma StillDrawn(
      k: Key, lifetime: nat, start: nat, first: Random, second: Random, events: seq<Event>, n: nat)
    requires n < |events|
    requires DrawnTogether(k, lifetime, start, first, second, events, n) || IsKeyOf(k, lifetime, events[n])
    ensures DrawnTogether(k, lifetime, start, first, second, events, n + 1)
  {
  }

  /** So it is of the keys in the slots, after any events. */
  lemma {:induction false} KeysDrawn(
      env: Env, lifetime: nat, start: nat, first: Random, second: Random, events: seq<Event>, n: nat)
    requires RandomOk(first) && RandomOk(second) && DrawsOk(events) && n <= |events|
    ensures var keys := Served(env, lifetime, Fresh(lifetime, start, first, second), events, n).0.keys;
      AllDrawn(keys, lifetime, start, first, second, events, n)
  {
    hide Reply, IsKeyOf;
    if n > 0 {
      KeysDrawn(env, lifetime, start, first, second, events, n - 1);
      var s := Served(env, lifetime, Fresh(lifetime, start, first, second), events, n - 1).0;
      ReplyKeys(env, lifetime, s, events[n - 1]);
      var t := Reply(env, lifetime, s, events[n - 1]).0;
      forall k | k in t.keys
        ensures DrawnTogether(k, lifetime, start, first, second, events, n)
      {
        StillDrawn(k, lifetime, start, first, second, events, n - 1);
      }
    }
  }

  lemma DrawnLifetime(
      keys: seq<Key>, lifetime: nat, start: nat, first: Random, second: Random, events: seq<Event>, n: nat)
    requires n <= |events| && AllDrawn(keys, lifetime, start, first, second, events, n)
    ensures forall k :: k in keys ==> k.lifetime == lifetime
  {
  }

  /** A key in use was made less than its lifetime before. */
  lemma UpdatedIsYoung(keys: seq<Key>, active: nat, lifetime: nat, now: nat, random: Random)
    requires |keys| == 2 && active < 2 && forall i :: 0 <= i < 2 ==> keys[i].lifetime == lifetime
    ensures var (keys', active') := Updated(keys, active, lifetime, now, random);
      && keys'[active'].lifetime == lifetime
      && (lifetime > 0 ==> keys'[active'].generated <= now < keys'[active'].generated + lifetime)
      && (lifetime == 0 ==> keys' == keys && active' == active)
  {
  }

  /** The ticket that event i issues is under a key whose name and secret were drawn
      together, less than the lifetime before if keys are to change at all. */
  ghost predicate SealedFresh(
    env: Env, lifetime: nat, start: nat, first: Random, second: Random, events: seq<Event>, i: nat, a: Answer)
    requires i < |events| && events[i].op.Issue?
  {
    exists k: Key ::
      && DrawnTogether(k, lifetime, start, first, second, events, i + 1)
      && a == Issued(Ticket(env, k, events[i].random.iv, env.save(events[i].op.session)))
      && (lifetime > 0 ==> k.generated <= Seconds(events[i].now) < k.generated + lifetime)
  }

  /** So no secret outlives its time, whatever the clock does. */
  lemma {:induction false} TicketsAreFresh(
      env: Env, lifetime: nat, start: nat, first: Random, second: Random, events: seq<Event>, i: nat, n: nat)
    requires RandomOk(first) && RandomOk(second) && DrawsOk(events) && i < n <= |events|
    requires events[i].op.Issue? && |env.save(events[i].op.session)| <= 0xffff
    ensures var a := Served(env, lifetime, Fresh(lifetime, start, first, second), events, n).1[i];
      a.Issued? ==> SealedFresh(env, lifetime, start, first, second, events, i, a)
    decreases n
  {
    hide Reply, AllDrawn, SealedFresh;
    if i < n - 1 {
      TicketsAreFresh(env, lifetime, start, first, second, events, i, n - 1);
    } else {
      KeysDrawn(env, lifetime, start, first, second, events, i);
      KeysDrawn(env, lifetime, start, first, second, events, i + 1);
      var s := Served(env, lifetime, Fresh(lifetime, start, first, second), events, i).0;
      DrawnLifetime(s.keys, lifetime, start, first, second, events, i);
      IssueIsFresh(env, lifetime, start, first, second, events, i, s);
    }
  }

  predicate TicketAt(env: Env, events: seq<Event>, answers: seq<Answer>, i: nat)
    requires i < |answers| <= |events|
  {
    events[i].op.Issue? && |env.save(events[i].op.session)| <= 0xffff && answers[i].Issued?
  }

  ghost predicate AllFresh(
    env: Env, lifetime: nat, start: nat, first: Random, second: Random, events: seq<Event>, answers: seq<Answer>)
    requires |answers| <= |events|
  {
    forall i :: 0 <= i < |answers| && TicketAt(env, events, answers, i) ==>
      SealedFresh(env, lifetime, start, first, second, events, i, answers[i])
  }

  lemma AnswersAreFresh(
      env: Env, lifetime: nat, start: nat, first: Random, second: Random, events: seq<Event>)
    requires RandomOk(first) && RandomOk(second) && DrawsOk(events)
    ensures var answers := Answers(env, lifetime, start, first, second, events);
      |answers| == |events| && AllFresh(env, lifetime, start, first, second, events, answers)
  {
    var answers := Answers(env, lifetime, start, first, second, events);
    forall i | 0 <= i < |answers| && TicketAt(env, events, answers, i)
      ensures SealedFresh(env, lifetime, start, first, second, events, i, answers[i])
    {
      TicketsAreFresh(env, lifetime, start, first, second, events, i, |events|);
    }
  }

  lemma IssueIsFresh(
      env: Env, lifetime: nat, start: nat, first: Random, second: Random, events: seq<Event>, i: nat, s: Server)
    requires i < |events| && events[i].op.Issue? && |env.save(events[i].op.session)| <= 0xffff
    requires ServerOk(s) && RandomOk(events[i].random) && forall k :: k in s.keys ==> k.lifetime == lifetime
    requires AllDrawn(Reply(env, lifetime, s, events[i]).0.keys, lifetime, start, first, second, events, i + 1)
    ensures var a := Reply(env, lifetime, s, events[i]).1;
      a.Issued? ==> SealedFresh(env, lifetime, start, first, second, events, i, a)
  {
    hide DrawnTogether, Ticket, HasRoom, Updated;
    UpdatedIsYoung(s.keys, s.active, lifetime, Seconds(events[i].now), events[i].random);
  }

  /** Ticket i is presented as event j, not later than its lifetime after its session was made. */
  predicate InTime(env: Env, lifetime: nat, events: seq<Event>, answers: seq<Answer>, i: nat, j: nat)
    requires i < j < |answers| <= |events|
  {
    && events[i].op.Issue? && answers[i].Issued? && |env.save(events[i].op.session)| <= 0xffff
    && events[i].op.session.created <= events[i].now
    && events[j].op == Present(answers[i].ticket)
    && events[j].now <= events[i].op.session.created + lifetime * 1000
  }

  /** The ticket written in event i is under a key that is kept. */
  predicate IssuedOk(env: Env, lifetime: nat, events: seq<Event>, answers: seq<Answer>, i: nat, key: Key)
    requires i < |answers| <= |events|
  {
    events[i].op.Issue? && answers[i].Issued? && |env.save(events[i].op.session)| <= 0xffff ==>
      && answers[i].ticket == Ticket(env, key, events[i].random.iv, env.save(events[i].op.session))
      && key.lifetime == lifetime
  }

  lemma {:induction false} PresentedInTime(
      env: Env, lifetime: nat, events: seq<Event>, answers: seq<Answer>, i: nat, key: Key, keys: seq<Key>,
      active: nat, now: nat)
    requires Ideal(env) && i < |answers| <= |events| && IssuedOk(env, lifetime, events, answers, i, key)
    requires events[i].op.Issue? && answers[i].Issued? && |env.save(events[i].op.session)| <= 0xffff &&
      RandomOk(events[i].random)
    requires events[i].op.session.created <= events[i].now <= now <= events[i].op.session.created + lifetime * 1000
    requires KeysOk(keys) && Distinct(keys) && active < 2
    requires Kept(keys, active, key, Seconds(events[i].now), lifetime, Seconds(now))
    ensures |answers[i].ticket| >= MIN_LEN && Parsed(env, keys, answers[i].ticket, now) == Ok(events[i].op.session)
  {
    var created := events[i].op.session.created;
    assert Seconds(created + lifetime * 1000) == Seconds(created) + lifetime;
    assert keys[active] == key || keys[1 - active] == key;
    TicketParses(env, keys, key, events[i].random.iv, events[i].op.session, now);
  }

  /** Every ticket written so far is under a key that is kept. */
  predicate Tracked(
    env: Env, lifetime: nat, events: seq<Event>, answers: seq<Answer>, used: seq<Key>, keys: seq<Key>, active: nat,
    now: nat)
    requires |keys| == 2 && active < 2
  {
    && |answers| == |used| <= |events| && Uniform(keys, lifetime, now)
    && forall i :: 0 <= i < |answers| && answers[i].Issued? ==>
      && events[i].op.Issue? && IssuedOk(env, lifetime, events, answers, i, used[i]) && Seconds(events[i].now) <= now
      && Kept(keys, active, used[i], Seconds(events[i].now), lifetime, now)
  }

  lemma {:induction false} StaysTracked(
      env: Env, lifetime: nat, events: seq<Event>, answers: seq<Answer>, used: seq<Key>, s: Server, before: nat)
    requires ServerOk(s) && |answers| < |events| && RandomOk(events[|answers|].random)
    requires Tracked(env, lifetime, events, answers, used, s.keys, s.active, before)
    requires before <= Seconds(events[|answers|].now)
    ensures var (t, a) := Reply(env, lifetime, s, events[|answers|]);
      Tracked(env, lifetime, events, answers + [a], used + [t.keys[t.active]], t.keys, t.active,
        Seconds(events[|answers|].now))
  {
    hide Ticket, Parsed, Updated, Kept;
    var e, now := events[|answers|], Seconds(events[|answers|].now);
    var (t, a) := Reply(env, lifetime, s, e);
    var all, keyOf := answers + [a], used + [t.keys[t.active]];
    UpdateKeepsNew(s.keys, s.active, lifetime, before, now, e.random);
    forall i | 0 <= i < |all| && all[i].Issued?
      ensures && events[i].op.Issue? && IssuedOk(env, lifetime, events, all, i, keyOf[i]) &&
        Seconds(events[i].now) <= now
              && Kept(t.keys, t.active, keyOf[i], Seconds(events[i].now), lifetime, now)
    {
      if i < |answers| {
        assert IssuedOk(env, lifetime, events, answers, i, used[i]);
        UpdateKeeps(s.keys, s.active, used[i], Seconds(events[i].now), lifetime, before, now, e.random);
        TimePasses(s.keys, s.active, used[i], Seconds(events[i].now), lifetime, before, now);
      }
    }
  }

  lemma TimePasses(keys: seq<Key>, active: nat, key: Key, issued: nat, lifetime: nat, before: nat, now: nat)
    requires |keys| == 2 && active < 2 && before <= now && Kept(keys, active, key, issued, lifetime, before)
    ensures Kept(keys, active, key, issued, lifetime, now)
  {
  }

  /** What is claimed of a run: tickets in time resume their session, and a session that
      is resumed is not older than the lifetime of its ticket. */
  predicate Good(env: Env, lifetime: nat, events: seq<Event>, answers: seq<Answer>)
    requires |answers| <= |events|
  {
    && (forall i, j :: 0 <= i < j < |answers| && InTime(env, lifetime, events, answers, i, j) ==>
          answers[j] == Resumed(events[i].op.session))
    && forall j :: 0 <= j < |answers| && answers[j].Resumed? ==>
      answers[j].session.created <= events[j].now <= answers[j].session.created + lifetime * 1000
  }

  lemma {:induction false} StaysGood(
      env: Env, lifetime: nat, start: nat, first: Random, second: Random, events: seq<Event>,
      was: seq<Answer>, used: seq<Key>, s: Server)
    requires Ideal(env) && EventsOk(start, first, second, events) && ServerOk(s)
    requires |was| < |events| && |used| == |was| + 1 && Good(env, lifetime, events, was)
    requires var e := events[|was|];
      var (t, a) := Reply(env, lifetime, s, e);
      Distinct(t.keys) && Tracked(env, lifetime, events, was + [a], used, t.keys, t.active, Seconds(e.now))
    ensures Good(env, lifetime, events, was + [Reply(env, lifetime, s, events[|was|]).1])
  {
    hide Ticket, Updated, Kept, Parsed, Distinct;
    var n, e := |was|, events[|was|];
    var (t, a) := Reply(env, lifetime, s, e);
    var answers := was + [a];
    forall i, j | 0 <= i < j < |answers| && InTime(env, lifetime, events, answers, i, j)
      ensures answers[j] == Resumed(events[i].op.session)
    {
      if j < n {
        assert InTime(env, lifetime, events, was, i, j) && was[j] == answers[j];
      } else {
        PresentedInTime(env, lifetime, events, answers, i, used[i], t.keys, t.active, e.now);
      }
    }
    forall j | 0 <= j < |answers| && answers[j].Resumed?
      ensures answers[j].session.created <= events[j].now <= answers[j].session.created + lifetime * 1000
    {
      if j < n {
        assert was[j] == answers[j];
      } else {
        ResumedInTime(env, t.keys, e.op.ticket, e.now);
      }
    }
  }

  lemma ResumedInTime(env: Env, keys: seq<Key>, ticket: bytes, now: nat)
    requires KeysOk(keys) && |ticket| >= MIN_LEN && Parsed(env, keys, ticket, now).Ok?
    ensures var session := Parsed(env, keys, ticket, now).value;
      exists k :: 0 <= k < 2 && session.created <= now <= session.created + keys[k].lifetime * 1000
  {
    var k := if keys[0].name == ticket[..NAME_LEN] then 0 else 1;
    var session := Parsed(env, keys, ticket, now).value;
    assert session.created <= now <= session.created + keys[k].lifetime * 1000;
  }

  lemma ReplyDraws(
      env: Env, lifetime: nat, s: Server, start: nat, first: Random, second: Random, events: seq<Event>,
      n: nat)
    requires EventsOk(start, first, second, events) && n < |events| && ServerOk(s) &&
      Drawn(s.keys, first, second, events, n)
    ensures Drawn(Reply(env, lifetime, s, events[n]).0.keys, first, second, events, n + 1)
  {
    UpdateDraws(s.keys, s.active, lifetime, Seconds(events[n].now), start, first, second, events, n);
    assert forall i :: 0 <= i < 2 ==> DrawnBefore(s.keys[i].name, first, second, events, n);
  }

  /** The run so far keeps its promises. */
  lemma {:induction false} ServedGood(
      env: Env, lifetime: nat, start: nat, first: Random, second: Random, events: seq<Event>, n: nat)
    returns (used: seq<Key>)
    requires Ideal(env) && EventsOk(start, first, second, events) && n <= |events|
    ensures var (s, answers) := Served(env, lifetime, Fresh(lifetime, start, first, second), events, n);
      && Drawn(s.keys, first, second, events, n) && Good(env, lifetime, events, answers)
      && Tracked(env, lifetime, events, answers, used, s.keys, s.active,
        Seconds(if n == 0 then start else events[n - 1].now))
  {
    if n == 0 {
      used := [];
    } else {
      hide Reply, Tracked, Good, Drawn;
      var was := ServedGood(env, lifetime, start, first, second, events, n - 1);
      var (s, answers) := Served(env, lifetime, Fresh(lifetime, start, first, second), events, n - 1);
      var (t, a) := Reply(env, lifetime, s, events[n - 1]);
      var before := if n == 1 then start else events[n - 2].now;
      assert Seconds(before) <= Seconds(events[n - 1].now);
      used := was + [t.keys[t.active]];
      Lengths(env, lifetime, events, answers, was, s, Seconds(before));
      StaysTracked(env, lifetime, events, answers, was, s, Seconds(before));
      ReplyDraws(env, lifetime, s, start, first, second, events, n - 1);
      DrawnDistinct(t.keys, first, second, events, n);
      StaysGood(env, lifetime, start, first, second, events, answers, used, s);
    }
  }

  lemma Lengths(
      env: Env, lifetime: nat, events: seq<Event>, answers: seq<Answer>, used: seq<Key>, s: Server, now: nat)
    requires ServerOk(s) && Tracked(env, lifetime, events, answers, used, s.keys, s.active, now)
    ensures |used| == |answers|
  {
  }

  lemma DrawnDistinct(keys: seq<Key>, first: Random, second: Random, events: seq<Event>, n: nat)
    requires n <= |events| && KeysOk(keys) && Drawn(keys, first, second, events, n)
    ensures Distinct(keys)
  {
  }

  /** A session is answered with a ticket exactly when there is room for one: for the key
      name, the IV, the length and the tag, 34 bytes in all, and the session; or without the
      tag, if the session turns out too long for a ticket. */
  lemma {:induction false} IssuedIffRoom(
      env: Env, lifetime: nat, s: Server, events: seq<Event>, i: nat, n: nat)
    requires ServerOk(s) && i < n <= |events| && DrawsOk(events)
    requires events[i].op.Issue?
    ensures var len, room := |env.save(events[i].op.session)|, events[i].op.room;
      Served(env, lifetime, s, events, n).1[i].Issued? <==>
        34 <= room && (if len > 65535 then 18 + len <= room else 34 + len <= room)
    ensures Served(env, lifetime, s, events, n).1[i].Issued? || Served(env, lifetime, s, events, n).1[i].Refused?
    ensures Served(env, lifetime, s, events, n).1[i].Refused? ==>
      Served(env, lifetime, s, events, n).1[i].error == BufferTooSmall
    decreases n
  {
    if i < n - 1 {
      IssuedIffRoom(env, lifetime, s, events, i, n - 1);
    }
  }

  /** What is too short to be a ticket is bad input, whatever the keys. */
  lemma {:induction false} ShortIsBadInput(
      env: Env, lifetime: nat, s: Server, events: seq<Event>, i: nat, n: nat)
    requires ServerOk(s) && i < n <= |events| && DrawsOk(events)
    requires events[i].op.Present? && |events[i].op.ticket| < 34
    ensures Served(env, lifetime, s, events, n).1[i] == Refused(BadInput)
    decreases n
  {
    if i < n - 1 {
      ShortIsBadInput(env, lifetime, s, events, i, n - 1);
    }
  }

  /** The answers of a server are those of its specification on values; so any ticket
      parses back to its session for as long as it lives, whatever tickets are written
      and presented in between, and after that it never does. */
  method Service(env: Env, lifetime: nat, start: nat, first: Random, second: Random, events: seq<Event>)
    returns (answers: seq<Answer>)
    requires Sized(env) && RandomOk(first) && RandomOk(second) && DrawsOk(events)
    ensures answers == Answers(env, lifetime, start, first, second, events)
    ensures |answers| == |events|
    ensures Ideal(env) && EventsOk(start, first, second, events) ==> Good(env, lifetime, events, answers)
    ensures AllFresh(env, lifetime, start, first, second, events, answers)
  {
    hide Reply, Good, EventsOk, Ideal, Sized, AllFresh;
    var ctx := new TicketContext(lifetime, Seconds(start), first, second);
    ghost var initial := Fresh(lifetime, start, first, second);
    answers := [];
    assert ctx.keys[..] == initial.keys;
    for n := 0 to |events|
      invariant ctx.Valid() && fresh(ctx) && fresh(ctx.keys) && ctx.lifetime == lifetime
      invariant (Server(ctx.keys[..], ctx.active), answers) == Served(env, lifetime, initial, events, n)
    {
      var answer := Serve(env, ctx, events[n]);
      answers := answers + [answer];
    }
    if Ideal(env) && EventsOk(start, first, second, events) {
      ghost var used := ServedGood(env, lifetime, start, first, second, events, |events|);
    }
    AnswersAreFresh(env, lifetime, start, first, second, events);
  }

  /** One event at the server. */
  method Serve(env: Env, ctx: TicketContext, e: Event) returns (answer: Answer)
    requires Sized(env) && ctx.Valid() && RandomOk(e.random)
    modifies ctx`active, ctx.keys
    ensures ctx.Valid()
    ensures (Server(ctx.keys[..], ctx.active), answer)
      == Reply(env, ctx.lifetime, Server(old(ctx.keys[..]), old(ctx.active)), e)
  {
    hide Sized, Ticket, Parsed, Updated;
    match e.op
    case Issue(session, room) =>
      var buf := new byte[room](_ => 0);
      var r, _ := ctx.Write(env, session, buf, e.now, e.random);
      answer := match r case Ok(len) => Issued(buf[..len]) case Err(error) => Refused(error);
    case Present(ticket) =>
      var buf := new byte[|ticket|](i requires 0 <= i < |ticket| => ticket[i]);
      assert buf[..] == ticket;
      var r := ctx.Parse(env, buf, e.now, e.random);
      answer := match r case Ok(session) => Resumed(session) case Err(error) => Refused(error);
  }
}
