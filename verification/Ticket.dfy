/** Session tickets: two keys that take turns, and how long a ticket stays good. */
module Tickets {
  import opened Bytes

  const NAME_LEN: nat := 4
  const IV_LEN: nat := 12
  const TAG_LEN: nat := 16
  const ADD_LEN: nat := 18
  const MIN_LEN: nat := 34

  datatype Session = Session(data: bytes, created: nat)

  /** The AEAD behind PSA, and saving and loading of sessions. */
  datatype Env = Env(
    encrypt: (bytes, bytes, bytes, bytes) -> bytes,
    decrypt: (bytes, bytes, bytes, bytes) -> Option<bytes>,
    save: Session -> bytes,
    load: bytes -> Option<Session>)

  /** The tag has a fixed length. */
  ghost predicate Sized(env: Env)
  {
    && (forall k: bytes, n: bytes, a: bytes, p: bytes :: |env.encrypt(k, n, a, p)| == |p| + TAG_LEN)
    && forall k: bytes, n: bytes, a: bytes, s: bytes ::
      env.decrypt(k, n, a, s).Some? ==> |env.decrypt(k, n, a, s).value| + TAG_LEN == |s|
  }

  /** And decrypting and loading undo encrypting and saving. */
  ghost predicate Ideal(env: Env)
  {
    && Sized(env)
    && (forall k: bytes, n: bytes, a: bytes, p: bytes :: env.decrypt(k, n, a, env.encrypt(k, n, a, p)) == Some(p))
    && forall s: Session :: env.load(env.save(s)) == Some(s)
  }

  /** Nothing else decrypts or loads. */
  ghost predicate Exact(env: Env)
  {
    && (forall k: bytes, n: bytes, a: bytes, s: bytes :: env.decrypt(k, n, a, s).Some? ==>
          s == env.encrypt(k, n, a, env.decrypt(k, n, a, s).value))
    && forall s: bytes :: env.load(s).Some? ==> s == env.save(env.load(s).value)
  }

  function Save(data: bytes, created: nat): bytes
    decreases created
  {
    if created == 0 then [0] + data else [1] + Save(data, created - 1)
  }

  function Load(s: bytes): Option<Session>
  {
    if s == [] then None
    else if s[0] == 0 then Some(Session(s[1..], 0))
    else if s[0] != 1 then None
    else
      match Load(s[1..])
      case None => None
      case Some(session) => Some(session.(created := session.created + 1))
  }

  lemma {:induction false} LoadSave(data: bytes, created: nat)
    ensures Load(Save(data, created)) == Some(Session(data, created))
    decreases created
  {
    if created > 0 {
      LoadSave(data, created - 1);
    }
    assert Save(data, created)[1..] == if created == 0 then data else Save(data, created - 1);
  }

  lemma {:induction false} SaveLoad(s: bytes)
    requires Load(s).Some?
    ensures s == Save(Load(s).value.data, Load(s).value.created)
    decreases |s|
  {
    if s[0] == 0 {
      assert s == [0] + s[1..];
    } else {
      SaveLoad(s[1..]);
      assert s == [1] + s[1..];
    }
  }

  /** There are such functions. */
  lemma IdealIsPossible() returns (env: Env)
    ensures Ideal(env) && Exact(env)
  {
    env := Env(
      (k, n, a, p: bytes) => p + Zeros(TAG_LEN),
      (k, n, a, s: bytes) =>
        if |s| >= TAG_LEN && s[|s| - TAG_LEN..] == Zeros(TAG_LEN) then Some(s[..|s| - TAG_LEN]) else None,
      (s: Session) => Save(s.data, s.created),
      (s: bytes) => Load(s));
    forall s: Session
      ensures env.load(env.save(s)) == Some(s)
    {
      LoadSave(s.data, s.created);
    }
    forall s: bytes | env.load(s).Some?
      ensures s == env.save(env.load(s).value)
    {
      SaveLoad(s);
    }
  }

  /** Generation time and lifetime are in seconds. */
  datatype Key = Key(name: bytes, generated: nat, lifetime: nat, key: bytes)

  /** What psa_generate_random returns during a call. */
  datatype Random = Random(name: bytes, key: bytes, iv: bytes)

  predicate RandomOk(r: Random)
  {
    |r.name| == NAME_LEN && |r.iv| == IV_LEN
  }

  datatype Error = BadInput | BufferTooSmall | Expired | Authentication | BadSession
  datatype Result<T> = Ok(value: T) | Err(error: Error)

  function Seconds(now: nat): nat
  {
    now / 1000
  }

  // ---------- The ticket

  function AddData(key: Key, iv: bytes, len: nat): bytes
  {
    key.name + iv + PutU16(len)
  }

  function Ticket(env: Env, key: Key, iv: bytes, clear: bytes): bytes
  {
    var a := AddData(key, iv, |clear|);
    a + env.encrypt(key.key, iv, a, clear)
  }

  predicate KeysOk(keys: seq<Key>)
  {
    |keys| == 2 && |keys[0].name| == |keys[1].name| == NAME_LEN
  }

  /** Both keys can be told apart. */
  predicate Distinct(keys: seq<Key>)
    requires |keys| == 2
  {
    keys[0].name != keys[1].name
  }

  /** What parsing a ticket comes to when the keys are up to date. */
  function Parsed(env: Env, keys: seq<Key>, s: bytes, now: nat): Result<Session>
    requires KeysOk(keys) && |s| >= MIN_LEN
  {
    var name, iv, len := s[..NAME_LEN], s[NAME_LEN..NAME_LEN + IV_LEN], U16At(s, NAME_LEN + IV_LEN);
    if |s| != MIN_LEN + len then Err(BadInput)
    else if keys[0].name != name && keys[1].name != name then Err(Expired)
    else
      var key := if keys[0].name == name then keys[0] else keys[1];
      match env.decrypt(key.key, iv, s[..ADD_LEN], s[ADD_LEN..])
      case None => Err(Authentication)
      case Some(clear) =>
        match env.load(clear)
        case None => Err(BadSession)
        case Some(session) =>
          if now < session.created || now - session.created > key.lifetime * 1000 then Err(Expired) else Ok(session)
  }

  /** A ticket parses back to its session while its key is there and it is not too old. */
  lemma {:induction false} TicketParses(env: Env, keys: seq<Key>, key: Key, iv: bytes, session: Session, now: nat)
    requires Ideal(env) && KeysOk(keys) && Distinct(keys) && |iv| == IV_LEN && |env.save(session)| <= 0xffff
    requires exists i ::
      0 <= i < 2 && keys[i].name == key.name && keys[i].key == key.key && keys[i].lifetime == key.lifetime
    requires session.created <= now <= session.created + key.lifetime * 1000
    ensures var s := Ticket(env, key, iv, env.save(session)); |s| >= MIN_LEN && Parsed(env, keys, s, now) == Ok(session)
  {
    var clear := env.save(session);
    var a, s := AddData(key, iv, |clear|), Ticket(env, key, iv, clear);
    assert s[..ADD_LEN] == a && s[ADD_LEN..] == env.encrypt(key.key, iv, a, clear);
    assert s[..NAME_LEN] == key.name && s[NAME_LEN..NAME_LEN + IV_LEN] == iv;
    U16RoundTrip(|clear|);
    assert s[NAME_LEN + IV_LEN] == PutU16(|clear|)[0] && s[NAME_LEN + IV_LEN + 1] == PutU16(|clear|)[1];
  }

  /** The time of the session is not over, and not still to come. */
  predicate Timely(session: Session, lifetime: nat, now: nat)
  {
    session.created <= now <= session.created + lifetime * 1000
  }

  ghost predicate IsTicketOf(env: Env, key: Key, s: bytes, session: Session)
  {
    |env.save(session)| <= 0xffff &&
    exists iv: bytes {:trigger Ticket(env, key, iv, env.save(session))} ::
      |iv| == IV_LEN && s == Ticket(env, key, iv, env.save(session))
  }

  /** Accepted are exactly the tickets under one of the two keys whose session is timely. */
  lemma ParsedIff(env: Env, keys: seq<Key>, s: bytes, now: nat, session: Session)
    requires Ideal(env) && Exact(env) && KeysOk(keys) && Distinct(keys) && |s| >= MIN_LEN
    ensures Parsed(env, keys, s, now) == Ok(session) <==>
      exists i :: 0 <= i < 2 && IsTicketOf(env, keys[i], s, session) && Timely(session, keys[i].lifetime, now)
  {
    if i :| 0 <= i < 2 && IsTicketOf(env, keys[i], s, session) && Timely(session, keys[i].lifetime, now) {
      var iv :| |iv| == IV_LEN && s == Ticket(env, keys[i], iv, env.save(session));
      TicketParses(env, keys, keys[i], iv, session, now);
    }
    if Parsed(env, keys, s, now) == Ok(session) {
      AcceptedIsTicket(env, keys, s, now);
    }
  }

  lemma AcceptedIsTicket(env: Env, keys: seq<Key>, s: bytes, now: nat)
    requires Ideal(env) && Exact(env) && KeysOk(keys) && |s| >= MIN_LEN && Parsed(env, keys, s, now).Ok?
    ensures var session := Parsed(env, keys, s, now).value;
      exists i :: 0 <= i < 2 && IsTicketOf(env, keys[i], s, session) && Timely(session, keys[i].lifetime, now)
  {
    var session := Parsed(env, keys, s, now).value;
    var i := if keys[0].name == s[..NAME_LEN] then 0 else 1;
    var iv, clear := s[NAME_LEN..NAME_LEN + IV_LEN], env.save(session);
    var len := U16At(s, NAME_LEN + IV_LEN);
    assert env.decrypt(keys[i].key, iv, s[..ADD_LEN], s[ADD_LEN..]) == Some(clear);
    assert |clear| == len;
    PutU16At(s, NAME_LEN + IV_LEN);
    assert s[..ADD_LEN] == AddData(keys[i], iv, len);
    assert s == s[..ADD_LEN] + s[ADD_LEN..] == Ticket(env, keys[i], iv, clear);
  }

  /** The error the others get: by length, by name, by tag, by content and by time, in
      this order. */
  lemma ParsedErrors(env: Env, keys: seq<Key>, s: bytes, now: nat)
    requires Ideal(env) && KeysOk(keys) && |s| >= MIN_LEN && Parsed(env, keys, s, now).Err?
    ensures var e := Parsed(env, keys, s, now).error;
      var sized := |s| == MIN_LEN + U16At(s, NAME_LEN + IV_LEN);
      var named := exists i :: 0 <= i < 2 && keys[i].name == s[..NAME_LEN];
      && (e == BadInput <==> !sized)
      && (sized && !named ==> e == Expired)
      && (e == Authentication || e == BadSession ==> named) && e != BufferTooSmall
      && (e == Expired && named && Distinct(keys) ==>
            exists i, clear ::
              && 0 <= i < 2 && keys[i].name == s[..NAME_LEN]
              && env.decrypt(keys[i].key, s[NAME_LEN..NAME_LEN + IV_LEN], s[..ADD_LEN], s[ADD_LEN..]) == Some(clear)
              && env.load(clear).Some? && !Timely(env.load(clear).value, keys[i].lifetime, now))
  {
    var i := if keys[0].name == s[..NAME_LEN] then 0 else 1;
    if |s| == MIN_LEN + U16At(s, NAME_LEN + IV_LEN) && keys[i].name == s[..NAME_LEN] {
      var p := env.decrypt(keys[i].key, s[NAME_LEN..NAME_LEN + IV_LEN], s[..ADD_LEN], s[ADD_LEN..]);
      assert p.Some? ==> p == Some(p.value);
    }
  }

  // ---------- Rotation

  predicate Due(key: Key, now: nat)
  {
    key.lifetime != 0 && !(now >= key.generated && now - key.generated < key.lifetime)
  }

  /** The two keys and the active one, brought up to date. */
  function Updated(keys: seq<Key>, active: nat, lifetime: nat, now: nat, random: Random): (seq<Key>, nat)
    requires |keys| == 2 && active < 2
  {
    if Due(keys[active], now) then (keys[1 - active := Key(random.name, now, lifetime, random.key)], 1 - active)
    else (keys, active)
  }

  /** A buffer of `room` bytes is enough for the ticket; it may have to hold more than the
      ticket when the session turns out too long for one. */
  predicate HasRoom(env: Env, session: Session, room: nat)
  {
    var len := |env.save(session)|;
    room >= MIN_LEN && if len > 0xffff then ADD_LEN + len <= room else MIN_LEN + len <= room
  }

  class TicketContext {
    const keys: array<Key>
    var active: nat
    var lifetime: nat

    ghost predicate Valid()
      reads this, keys
    {
      keys.Length == 2 && active < 2 && KeysOk(keys[..])
    }

    /** mbedtls_ssl_ticket_setup */
    constructor (lifetime: nat, now: nat, first: Random, second: Random)
      requires RandomOk(first) && RandomOk(second)
      ensures Valid() && fresh(keys) && active == 0 && this.lifetime == lifetime
      ensures keys[0] == Key(first.name, now, lifetime, first.key) &&
        keys[1] == Key(second.name, now, lifetime, second.key)
    {
      keys := new Key[2](_ => Key([], 0, 0, []));
      active, this.lifetime := 0, lifetime;
      new;
      GenKey(0, now, first);
      GenKey(1, now, second);
    }

    /** ssl_ticket_gen_key */
    method GenKey(index: nat, now: nat, random: Random)
      requires index < keys.Length
      modifies keys
      ensures keys[..] == old(keys[..])[index := Key(random.name, now, lifetime, random.key)]
    {
      keys[index] := Key(random.name, now, lifetime, random.key);
    }

    /** ssl_ticket_update_keys */
    method UpdateKeys(now: nat, random: Random)
      requires Valid() && RandomOk(random)
      modifies this`active, keys
      ensures Valid()
      ensures (keys[..], active) == Updated(old(keys[..]), old(active), lifetime, now, random)
    {
      var key := keys[active];
      if key.lifetime != 0 {
        if now >= key.generated && now - key.generated < key.lifetime {
          return;
        }
        active := 1 - active;
        GenKey(active, now, random);
      }
    }

    /** mbedtls_ssl_ticket_rotate */
    method Rotate(name: bytes, key: bytes, keyLen: nat, lifetime: nat, now: nat) returns (r: Result<()>)
      requires Valid()
      modifies this, keys
      ensures Valid() && (r == Ok(()) <==> |name| >= NAME_LEN && |key| >= keyLen)
      ensures if r == Ok(())
        then active == 1 - old(active) && this.lifetime == lifetime
             && keys[..] == old(keys[..])[active := Key(name[..NAME_LEN], now, lifetime, key[..keyLen])]
        else active == old(active) && this.lifetime == old(this.lifetime) && keys[..] == old(keys[..])
    {
      if |name| < NAME_LEN || |key| < keyLen {
        return Err(BadInput);
      }
      active := 1 - active;
      this.lifetime := lifetime;
      keys[active] := Key(name[..NAME_LEN], now, lifetime, key[..keyLen]);
      return Ok(());
    }

    /** ssl_ticket_select_key */
    method SelectKey(name: bytes) returns (index: Option<nat>)
      requires Valid()
      ensures match index
        case None => keys[0].name != name && keys[1].name != name
        case Some(i) => i < 2 && keys[i].name == name && (i == 1 ==> keys[0].name != name)
    {
      for i := 0 to 2
        invariant forall j :: 0 <= j < i ==> keys[j].name != name
      {
        if keys[i].name == name {
          return Some(i);
        }
      }
      return None;
    }

    /** mbedtls_ssl_ticket_write. For a session of more than 0xffff bytes the source
        reports success and a ticket of no bytes. */
    method Write(env: Env, session: Session, buf: array<byte>, now: nat, random: Random)
      returns (r: Result<nat>, lifetime: nat)
      requires Valid() && Sized(env) && RandomOk(random)
      modifies this`active, keys, buf
      ensures Valid()
      ensures buf.Length < MIN_LEN ==> r == Err(BufferTooSmall) && active == old(active) && keys[..] == old(keys[..])
      ensures buf.Length >= MIN_LEN ==>
        (keys[..], active) == Updated(old(keys[..]), old(active), this.lifetime, Seconds(now), random)
      ensures r.Ok? <==> HasRoom(env, session, buf.Length)
      ensures r.Err? ==> r.error == BufferTooSmall
      ensures r.Ok? && |env.save(session)| > 0xffff ==> r.value == 0
      ensures r.Ok? && |env.save(session)| <= 0xffff ==>
        && r.value <= buf.Length && lifetime == keys[active].lifetime
        && buf[..r.value] == Ticket(env, keys[active], random.iv, env.save(session))
    {
      lifetime := 0;
      if buf.Length < MIN_LEN {
        return Err(BufferTooSmall), 0;
      }
      UpdateKeys(Seconds(now), random);
      var key := keys[active];
      lifetime := key.lifetime;
      WriteAt(buf, 0, key.name);
      WriteAt(buf, NAME_LEN, random.iv);
      assert buf[..NAME_LEN + IV_LEN] == buf[..NAME_LEN] + buf[NAME_LEN..NAME_LEN + IV_LEN];
      var clear := env.save(session);
      if |clear| > buf.Length - ADD_LEN {
        return Err(BufferTooSmall), lifetime;
      }
      WriteAt(buf, ADD_LEN, clear);
      assert buf[..NAME_LEN + IV_LEN] == buf[..ADD_LEN][..NAME_LEN + IV_LEN];
      if |clear| > 0xffff {
        return Ok(0), lifetime;
      }
      assert buf[..NAME_LEN + IV_LEN] == key.name + random.iv;
      WriteAt(buf, NAME_LEN + IV_LEN, PutU16(|clear|));
      assert buf[..ADD_LEN] == buf[..NAME_LEN + IV_LEN] + buf[NAME_LEN + IV_LEN..ADD_LEN];
      assert buf[..ADD_LEN] == AddData(key, random.iv, |clear|);
      var sealed := env.encrypt(key.key, random.iv, buf[..ADD_LEN], clear);
      if |sealed| > buf.Length - ADD_LEN {
        return Err(BufferTooSmall), lifetime;
      }
      WriteAt(buf, ADD_LEN, sealed);
      assert buf[..ADD_LEN] == AddData(key, random.iv, |clear|);
      assert buf[..ADD_LEN + |sealed|] == buf[..ADD_LEN] + buf[ADD_LEN..ADD_LEN + |sealed|];
      return Ok(MIN_LEN + |sealed| - TAG_LEN), lifetime;
    }

    /** mbedtls_ssl_ticket_parse: the ticket is decrypted in place. */
    method Parse(env: Env, buf: array<byte>, now: nat, random: Random) returns (r: Result<Session>)
      requires Valid() && Sized(env) && RandomOk(random)
      modifies this`active, keys, buf
      ensures Valid()
      ensures buf.Length < MIN_LEN ==> r == Err(BadInput) && active == old(active) && keys[..] == old(keys[..])
      ensures buf.Length >= MIN_LEN ==>
        (keys[..], active) == Updated(old(keys[..]), old(active), lifetime, Seconds(now), random)
      ensures buf.Length >= MIN_LEN ==> r == Parsed(env, keys[..], old(buf[..]), now)
    {
      if buf.Length < MIN_LEN {
        return Err(BadInput);
      }
      ghost var s := buf[..];
      UpdateKeys(Seconds(now), random);
      var len := buf[NAME_LEN + IV_LEN] as int * 0x100 + buf[NAME_LEN + IV_LEN + 1] as int;
      if buf.Length != MIN_LEN + len {
        return Err(BadInput);
      }
      var index := SelectKey(buf[..NAME_LEN]);
      if index == None {
        return Err(Expired);
      }
      var key := keys[index.value];
      assert buf[..] == s;
      assert buf[..NAME_LEN] == s[..NAME_LEN] && buf[..ADD_LEN] == s[..ADD_LEN] && buf[ADD_LEN..] == s[ADD_LEN..];
      var clear := env.decrypt(key.key, buf[NAME_LEN..NAME_LEN + IV_LEN], buf[..ADD_LEN], buf[ADD_LEN..]);
      if clear == None {
        return Err(Authentication);
      }
      WriteAt(buf, ADD_LEN, clear.value);
      assert buf[ADD_LEN..ADD_LEN + len] == clear.value;
      var session := env.load(buf[ADD_LEN..ADD_LEN + len]);
      if session == None {
        return Err(BadSession);
      }
      if now < session.value.created || now - session.value.created > key.lifetime * 1000 {
        return Err(Expired);
      }
      return Ok(session.value);
    }
  }
}
