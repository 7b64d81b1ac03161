/** What the parser of the TLS 1.3 Certificate message answers when something is wrong. */
module CertificateErrors {
  import opened Bytes
  import opened CertificateFormat

  predicate ExtSized(x: Ext)
  {
    x.extType < LIMIT && |x.data| < LIMIT
  }

  predicate EntrySized(e: CertEntry)
  {
    && MIN_CERT <= |e.cert| < LIMIT && |FormatExts(e.exts)| < LIMIT
    && forall i :: 0 <= i < |e.exts| ==> ExtSized(e.exts[i])
  }

  /** All sizes are as they should be, whatever is thought of the contents. */
  predicate ListSized(es: seq<CertEntry>)
  {
    forall i :: 0 <= i < |es| ==> EntrySized(es[i])
  }

  function ExtsOffence(env: Env, xs: seq<Ext>): Option<nat>
  {
    if xs == [] then None
    else if env.check(xs[0].extType).Some? then env.check(xs[0].extType)
    else ExtsOffence(env, xs[1..])
  }

  function EntryOffence(env: Env, e: CertEntry): Option<nat>
  {
    match env.verdict(e.cert)
    case Bad(code) => Some(code)
    case _ => ExtsOffence(env, e.exts)
  }

  /** The code of the first thing that is refused, certificates before their extensions. */
  function Offence(env: Env, es: seq<CertEntry>): Option<nat>
  {
    if es == [] then None
    else if EntryOffence(env, es[0]).Some? then EntryOffence(env, es[0])
    else Offence(env, es[1..])
  }

  /** Extensions are judged from the front: what is refused is answered before anything
      behind it is looked at. */
  lemma {:induction false} ExtsFront(env: Env, xs: seq<Ext>, rest: bytes)
    requires forall i :: 0 <= i < |xs| ==> ExtSized(xs[i])
    ensures ParseExts(env, FormatExts(xs) + rest) ==
      match ExtsOffence(env, xs)
      case Some(code) => Err(Refused(code))
      case None => if ParseExts(env, rest).Err? then ParseExts(env, rest) else Ok(xs + ParseExts(env, rest).value)
  {
    if xs == [] {
      assert FormatExts(xs) + rest == rest;
      assert ParseExts(env, rest).Ok? ==> xs + ParseExts(env, rest).value == ParseExts(env, rest).value;
    } else {
      hide ParseExts, FormatExts, ExtSized;
      FirstExt(xs, rest);
      ExtFirst(env, xs[0], FormatExts(xs[1..]) + rest);
      ExtsFront(env, xs[1..], rest);
      if ParseExts(env, rest).Ok? {
        Cons(xs[0], xs[1..], ParseExts(env, rest).value);
        assert [xs[0]] + xs[1..] == xs;
      }
    }
  }

  lemma Cons<T>(x: T, a: seq<T>, b: seq<T>)
    ensures [x] + (a + b) == [x] + a + b
  {
  }

  lemma {:induction false} FirstExt(xs: seq<Ext>, rest: bytes)
    requires xs != []
    ensures FormatExts(xs) + rest ==
      PutU16(xs[0].extType) + PutU16(|xs[0].data|) + xs[0].data + (FormatExts(xs[1..]) + rest)
  {
    Assoc(PutU16(xs[0].extType) + PutU16(|xs[0].data|) + xs[0].data, FormatExts(xs[1..]), rest);
  }

  lemma {:induction false} ExtFirst(env: Env, x: Ext, behind: bytes)
    requires ExtSized(x)
    ensures ParseExts(env, PutU16(x.extType) + PutU16(|x.data|) + x.data + behind) ==
      if env.check(x.extType).Some? then Err(Refused(env.check(x.extType).value))
      else if ParseExts(env, behind).Err? then ParseExts(env, behind)
      else Ok([x] + ParseExts(env, behind).value)
  {
    var s := PutU16(x.extType) + PutU16(|x.data|) + x.data + behind;
    U16RoundTrip(x.extType);
    U16RoundTrip(|x.data|);
    assert s == PutU16(x.extType) + (PutU16(|x.data|) + (x.data + behind));
    assert s[..2] == PutU16(x.extType) && s[2..4] == PutU16(|x.data|);
    assert U16At(s, 0) == x.extType && U16At(s, 2) == |x.data|;
    assert s[4..4 + |x.data|] == x.data && s[4 + |x.data|..] == behind;
  }

  /** One that is cut off is an error whatever its type. */
  lemma CutExt(env: Env, s: bytes)
    requires s != [] && (|s| < 4 || |s| - 4 < U16At(s, 2))
    ensures ParseExts(env, s) == Err(DecodeError)
  {
  }

  lemma ExtsAnswer(env: Env, xs: seq<Ext>)
    requires forall i :: 0 <= i < |xs| ==> ExtSized(xs[i])
    ensures ParseExts(env, FormatExts(xs)) ==
      match ExtsOffence(env, xs) case Some(code) => Err(Refused(code)) case None => Ok(xs)
  {
    ExtsFront(env, xs, []);
    assert FormatExts(xs) + [] == FormatExts(xs) && xs + [] == xs;
  }

  lemma {:induction false} EntryAnswer(env: Env, e: CertEntry, rest: bytes)
    requires EntrySized(e)
    ensures ParseEntry(env, FormatEntry(e) + rest) ==
      match EntryOffence(env, e) case Some(code) => Err(Refused(code)) case None => Ok((e, rest))
  {
    var xs := FormatExts(e.exts);
    U24RoundTrip(|e.cert|);
    U16RoundTrip(|xs|);
    EntryParts(PutU24(|e.cert|), e.cert, PutU16(|xs|), xs, rest);
    ExtsAnswer(env, e.exts);
    hide U24At, U16At, PutU24, PutU16, FormatExts, ParseExts, ExtSized, ExtsOffence;
  }

  /** A certificate is judged before what is behind it is looked at. */
  lemma {:induction false} CertificateFirst(env: Env, cert: bytes, rest: bytes)
    requires MIN_CERT <= |cert| < LIMIT
    ensures var s := PutU24(|cert|) + cert + rest;
      match env.verdict(cert)
      case Bad(code) => ParseEntry(env, s) == Err(Refused(code))
      case _ => |rest| < 2 || |rest| - 2 < U16At(rest, 0) ==> ParseEntry(env, s) == Err(DecodeError)
  {
    var s := PutU24(|cert|) + cert + rest;
    U24RoundTrip(|cert|);
    assert s == PutU24(|cert|) + (cert + rest);
    assert s[..3] == PutU24(|cert|) && s[3..] == cert + rest;
    assert U24At(s, 0) == |cert| && s[3..3 + |cert|] == cert;
    if |rest| >= 2 {
      assert s[3 + |cert|] == rest[0] && s[4 + |cert|] == rest[1];
      assert U16At(s, 3 + |cert|) == U16At(rest, 0);
    }
  }

  /** So is the list. */
  lemma {:induction false} ListFront(env: Env, es: seq<CertEntry>, rest: bytes)
    requires ListSized(es)
    ensures ParseList(env, FormatList(es) + rest) ==
      match Offence(env, es)
      case Some(code) => Err(Refused(code))
      case None => if ParseList(env, rest).Err? then ParseList(env, rest) else Ok(es + ParseList(env, rest).value)
  {
    hide ParseEntry, FormatEntry, EntrySized, EntryOffence;
    if es == [] {
      assert FormatList(es) + rest == rest;
      assert ParseList(env, rest).Ok? ==> es + ParseList(env, rest).value == ParseList(env, rest).value;
    } else {
      var behind := FormatList(es[1..]) + rest;
      assert FormatList(es) + rest == FormatEntry(es[0]) + behind;
      EntryNotEmpty(es[0]);
      EntryAnswer(env, es[0], behind);
      ListFront(env, es[1..], rest);
      if ParseList(env, rest).Ok? {
        Cons(es[0], es[1..], ParseList(env, rest).value);
        assert [es[0]] + es[1..] == es;
      }
    }
  }

  lemma ListAnswer(env: Env, es: seq<CertEntry>)
    requires ListSized(es)
    ensures ParseList(env, FormatList(es)) ==
      match Offence(env, es) case Some(code) => Err(Refused(code)) case None => Ok(es)
  {
    ListFront(env, es, []);
    assert FormatList(es) + [] == FormatList(es) && es + [] == es;
  }

  lemma NothingToParse(env: Env)
    ensures ParseList(env, []) == Ok([])
  {
  }

  /** Whatever follows in the list, and behind it, an offence is answered with its code. */
  lemma {:induction false} OffenceFirst(env: Env, es: seq<CertEntry>, rest: bytes, extra: bytes)
    requires ListSized(es) && |FormatList(es) + rest| < LIMIT && Offence(env, es).Some?
    ensures Parse(env, [0] + PutU24(|FormatList(es) + rest|) + (FormatList(es) + rest) + extra) ==
      Err(Refused(Offence(env, es).value))
  {
    hide FormatList, ParseList, ListSized, Offence;
    var list := FormatList(es) + rest;
    var s := [0] + PutU24(|list|) + list + extra;
    U24RoundTrip(|list|);
    assert s == [0] + (PutU24(|list|) + (list + extra));
    assert s[1..4] == PutU24(|list|) && s[4..] == list + extra;
    assert U24At(s, 1) == U24At(s[1..4], 0) == |list|;
    assert s[4..4 + |list|] == list;
    ListFront(env, es, rest);
    NothingToParse(env);
  }

  lemma NoOffence(env: Env)
    ensures Offence(env, []) == None
  {
  }

  /** A message in which only contents are wrong is answered with the code of the first
      thing that is refused; with nothing refused it is taken, or UNKNOWN_OID is left over. */
  lemma {:induction false} ParseAnswer(env: Env, s: bytes, es: seq<CertEntry>)
    requires ListSized(es) && |FormatList(es)| < LIMIT && s == Format([], es)
    ensures Parse(env, s) ==
      match Offence(env, es)
      case Some(code) => Err(Refused(code))
      case None =>
        if es != [] && |es[|es| - 1].exts| == 0 && env.verdict(es[|es| - 1].cert).Unknown? then Err(UnknownOid)
        else Ok(Chain(env, es))
  {
    hide FormatList, ParseList, Chain, ListSized, Offence;
    var len := |FormatList(es)|;
    U24RoundTrip(len);
    assert s == [0] + (PutU24(len) + FormatList(es));
    assert s[1..4] == PutU24(len) && s[4..] == FormatList(es);
    assert U24At(s, 1) == U24At(s[1..4], 0) == len;
    assert s[4..4 + len] == FormatList(es);
    ListAnswer(env, es);
    ListNotEmpty(es);
    NoChain(env);
    NoOffence(env);
  }

  /** The code is one that the X.509 parser or the check of extensions gives. */
  ghost predicate IsVerdict(env: Env, code: nat)
  {
    (exists cert :: env.verdict(cert) == Bad(code)) || exists extType :: env.check(extType) == Some(code)
  }

  ghost predicate ErrorOk(env: Env, e: Error)
  {
    e == DecodeError || (e.Refused? && IsVerdict(env, e.code))
  }

  lemma {:induction false} ExtsErrors(env: Env, s: bytes)
    requires ParseExts(env, s).Err?
    ensures ErrorOk(env, ParseExts(env, s).error)
    decreases |s|
  {
    if |s| >= 4 && |s| - 4 >= U16At(s, 2) && env.check(U16At(s, 0)) == None {
      ExtsErrors(env, s[4 + U16At(s, 2)..]);
    }
  }

  lemma {:induction false} EntryErrors(env: Env, s: bytes)
    requires ParseEntry(env, s).Err?
    ensures ErrorOk(env, ParseEntry(env, s).error)
  {
    hide ParseExts;
    if |s| >= 3 && |s| - 3 >= U24At(s, 0) && |s| - 3 - U24At(s, 0) >= 2 {
      var n := U24At(s, 0);
      var m := U16At(s, 3 + n);
      if |s| - 5 - n >= m && ParseExts(env, s[5 + n..5 + n + m]).Err? {
        ExtsErrors(env, s[5 + n..5 + n + m]);
      }
      assert env.verdict(s[3..3 + n]).Bad? ==>
        env.verdict(s[3..3 + n]) == Bad(env.verdict(s[3..3 + n]).code);
    }
  }

  lemma {:induction false} ListErrors(env: Env, s: bytes)
    requires ParseList(env, s).Err?
    ensures ErrorOk(env, ParseList(env, s).error)
    decreases |s|
  {
    hide ParseEntry, ErrorOk;
    if ParseEntry(env, s).Err? {
      EntryErrors(env, s);
    } else {
      ListErrors(env, ParseEntry(env, s).value.1);
    }
  }

  lemma ParseErrors(env: Env, s: bytes)
    requires Parse(env, s).Err?
    ensures var e := Parse(env, s).error; e == UnknownOid || ErrorOk(env, e)
  {
    hide ParseList, LastUnknown;
    if |s| >= 4 {
      var len := U24At(s, 1);
      if |s| - 4 >= len && ParseList(env, s[4..4 + len]).Err? {
        ListErrors(env, s[4..4 + len]);
      }
    }
  }

  /** s is the format of a list of entries of proper sizes. */
  ghost predicate IsCertificate(s: bytes)
  {
    exists es {:trigger Format([], es)} :: ListSized(es) && |FormatList(es)| < LIMIT && s == Format([], es)
  }

  lemma AcceptableIsSized(env: Env, es: seq<CertEntry>)
    requires ListOk(env, es)
    ensures ListSized(es)
  {
    hide FormatExts;
    forall i | 0 <= i < |es|
      ensures EntrySized(es[i])
    {
      assert EntryOk(env, es[i]);
      assert forall j :: 0 <= j < |es[i].exts| ==> ExtOk(env, es[i].exts[j]);
    }
  }

  /** A message that is not in the format is refused, with DECODE_ERROR unless something in
      it is refused before; and DECODE_ERROR is for no other message. */
  lemma {:induction false} DecodeErrorIff(env: Env, s: bytes)
    ensures Parse(env, s) == Err(DecodeError) ==> !IsCertificate(s)
    ensures !IsCertificate(s) ==> Parse(env, s).Err? && ErrorOk(env, Parse(env, s).error)
    ensures (forall code :: !IsVerdict(env, code)) ==> (Parse(env, s) == Err(DecodeError) <==> !IsCertificate(s))
  {
    hide Parse, ListSized, IsVerdict, ListOk;
    if IsCertificate(s) {
      var es :| ListSized(es) && |FormatList(es)| < LIMIT && s == Format([], es);
      ParseAnswer(env, s, es);
    } else {
      if Parse(env, s).Ok? || Parse(env, s) == Err(UnknownOid) {
        var es := AcceptedIsWellFormed(env, s);
        AcceptableIsSized(env, es);
        assert false;
      }
      ParseErrors(env, s);
    }
  }
}
