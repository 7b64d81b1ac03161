/** The DTLS anti-replay window against the plain set of record numbers seen. Section
    4.1.2.6 of RFC 6347. */
module AntiReplay {
  import opened Bytes
  import opened OutCounters

  const WINDOW: nat := 64

  /** w << s on 64 bits. */
  function Shl(w: nat, s: nat): nat
  {
    w * Pow2(s) % Pow2(WINDOW)
  }

  lemma {:induction false} BitOnMod(w: nat, width: nat, n: nat)
    requires n < width
    ensures BitOn(w % Pow2(width), n) == BitOn(w, n)
    decreases width
  {
    var m := Pow2(width - 1);
    HalfMod(w, m);
    if n > 0 {
      BitOnMod(w / 2, width - 1, n - 1);
    }
  }

  lemma HalfMod(w: nat, m: nat)
    requires m > 0
    ensures w % (2 * m) / 2 == w / 2 % m && w % (2 * m) % 2 == w % 2
  {
    var q, r := w / (2 * m), w % (2 * m);
    assert w == 2 * (m * q) + r;
    assert w / 2 == m * q + r / 2 && r / 2 < m;
    ModUnique(w / 2, m, q, r / 2);
  }

  lemma TimesNonzero(m: nat, d: int)
    requires m > 0 && d != 0
    ensures m * d >= m || m * d + m <= 0
  {
  }

  lemma ModUnique(x: nat, m: nat, q: nat, r: nat)
    requires m > 0 && x == m * q + r && r < m
    ensures x % m == r
  {
    var d: int := q - x / m;
    assert m * d == x % m - r;
    if d != 0 {
      TimesNonzero(m, d);
    }
  }

  lemma {:induction false} BitOnTimesPow2(w: nat, s: nat, n: nat)
    ensures BitOn(w * Pow2(s), n) == (n >= s && BitOn(w, n - s))
    decreases s
  {
    if s > 0 {
      var h := w * Pow2(s - 1);
      assert w * Pow2(s) == 2 * h;
      if n > 0 {
        BitOnTimesPow2(w, s - 1, n - 1);
      }
    }
  }

  lemma ShlBits(w: nat, s: nat, n: nat)
    requires n < WINDOW
    ensures BitOn(Shl(w, s), n) == (n >= s && BitOn(w, n - s))
  {
    BitOnMod(w * Pow2(s), WINDOW, n);
    BitOnTimesPow2(w, s, n);
  }

  /** The first 6 bytes of s as the C code puts them together. */
  function SixBytes(s: bytes): nat
    requires |s| >= 6
  {
    s[0] as int * 0x100_0000_0000 + s[1] as int * 0x1_0000_0000 + s[2] as int * 0x100_0000
    + s[3] as int * 0x1_0000 + s[4] as int * 0x100 + s[5] as int
  }

  lemma SixBytesIsNumber(ctr: bytes)
    requires |ctr| == CTR_LEN
    ensures SixBytes(ctr[2..]) == Number(ctr)
  {
    var s := ctr[2..];
    assert s[..1][..0] == [] && s[..2][..1] == s[..1] && s[..3][..2] == s[..2] && s[..4][..3] == s[..3] &&
      s[..5][..4] == s[..4];
    var one: nat := s[0];
    assert Value(s[..1]) == one;
    var two := one * 256 + s[1] as int;
    assert Value(s[..2]) == two;
    var three := two * 256 + s[2] as int;
    assert Value(s[..3]) == three;
    var four := three * 256 + s[3] as int;
    assert Value(s[..4]) == four;
    var five := four * 256 + s[4] as int;
    assert Value(s[..5]) == five;
  }

  /** The set of numbers seen that the window stands for. */
  predicate Represents(top: nat, window: nat, seen: set<nat>)
  {
    && (if seen == {} then top == 0 else top in seen)
    && (forall n :: n in seen ==> n <= top)
    && forall bit :: 0 <= bit < WINDOW && bit <= top ==> Marks(top, window, seen, bit)
  }

  predicate Marks(top: nat, window: nat, seen: set<nat>, bit: nat)
    requires bit <= top
  {
    BitOn(window, bit) <==> top - bit in seen
  }

  /** Above everything seen, or unseen and not too far below. */
  predicate Acceptable(seen: set<nat>, n: nat)
  {
    n !in seen && forall m :: m in seen ==> m < n + WINDOW
  }

  lemma {:induction false} ShiftRepresents(top: nat, window: nat, seen: set<nat>, n: nat)
    requires Represents(top, window, seen) && n > top
    ensures Represents(n, if n - top >= WINDOW then 1 else OrBit(Shl(window, n - top), 0), seen + {n})
  {
    var s := n - top;
    var w := if s >= WINDOW then 1 else OrBit(Shl(window, s), 0);
    forall bit | 0 <= bit < WINDOW && bit <= n
      ensures Marks(n, w, seen + {n}, bit)
    {
      if s >= WINDOW {
        OrBitSetsOne(0, 0, bit);
        ZeroHasNoBits(bit);
        assert OrBit(0, 0) == 1;
      } else {
        ShlBits(window, s, bit);
        OrBitSetsOne(Shl(window, s), 0, bit);
        if bit >= s {
          assert bit - s <= top ==> Marks(top, window, seen, bit - s);
        }
      }
    }
  }

  lemma {:induction false} MarkRepresents(top: nat, window: nat, seen: set<nat>, n: nat)
    requires Represents(top, window, seen) && n <= top < n + WINDOW
    ensures Represents(top, OrBit(window, top - n), seen + {n})
  {
    var w, all := OrBit(window, top - n), seen + {n};
    forall bit | 0 <= bit < WINDOW && bit <= top
      ensures Marks(top, w, all, bit)
    {
      OrBitSetsOne(window, top - n, bit);
      assert Marks(top, window, seen, bit);
    }
  }

  class ReplayWindow {
    const enabled: bool
    var top: nat
    var window: nat

    constructor (enabled: bool)
      ensures Represents(top, window, {}) && this.enabled == enabled
    {
      this.enabled := enabled;
      top, window := 0, 0;
      new;
      Reset();
    }

    method Reset()
      modifies this
      ensures Represents(top, window, {})
    {
      top, window := 0, 0;
      forall bit | 0 <= bit < WINDOW && bit <= top
        ensures Marks(top, window, {}, bit)
      {
        ZeroHasNoBits(bit);
      }
    }

    /** mbedtls_ssl_dtls_replay_check */
    method Check(ctr: bytes, ghost seen: set<nat>) returns (ok: bool)
      requires |ctr| == CTR_LEN && (enabled ==> Represents(top, window, seen))
      ensures ok <==> !enabled || Acceptable(seen, SixBytes(ctr[2..]))
    {
      var n := SixBytes(ctr[2..]);
      if !enabled {
        return true;
      }
      if n > top {
        return true;
      }
      var bit := top - n;
      if bit >= WINDOW {
        return false;
      }
      assert Marks(top, window, seen, bit);
      return !BitOn(window, bit);
    }

    /** mbedtls_ssl_dtls_replay_update */
    method Update(ctr: bytes, ghost seen: set<nat>)
      requires |ctr| == CTR_LEN
      requires enabled ==> Represents(top, window, seen) && Acceptable(seen, SixBytes(ctr[2..]))
      modifies this
      ensures if enabled then Represents(top, window, seen + {SixBytes(ctr[2..])})
        else top == old(top) && window == old(window)
    {
      var n := SixBytes(ctr[2..]);
      if enabled {
        if n > top {
          ShiftRepresents(top, window, seen, n);
          var shift := n - top;
          window := if shift >= WINDOW then 1 else OrBit(Shl(window, shift), 0);
          top := n;
        } else {
          MarkRepresents(top, window, seen, n);
          var bit := top - n;
          if bit < WINDOW {
            window := OrBit(window, bit);
          }
        }
      }
    }
  }

  // ---------- A whole connection

  /** What happens to the incoming side: a record arrives, with its counter and whether
      it authenticates, or ChangeCipherSpec starts the next epoch. */
  datatype Event = Arrives(ctr: bytes, authentic: bool) | NextEpoch

  const EPOCH_LIMIT: nat := 0x1_0000

  predicate EventsOk(events: seq<Event>)
  {
    forall i :: 0 <= i < |events| ==> events[i].Arrives? ==> |events[i].ctr| == CTR_LEN
  }

  /** The epoch after the first i events. */
  function EpochAt(events: seq<Event>, first: nat, i: nat): nat
    requires i <= |events|
  {
    if i == 0 then first else EpochAt(events, first, i - 1) + if events[i - 1].NextEpoch? then 1 else 0
  }

  /** The numbers accepted in the current epoch during the first i events. */
  function Seen(events: seq<Event>, accepted: seq<bool>, i: nat): set<nat>
    requires i <= |events| && i <= |accepted| && EventsOk(events)
  {
    if i == 0 then {}
    else
      match events[i - 1]
      case NextEpoch => {}
      case Arrives(ctr, _) => Seen(events, accepted, i - 1) + if accepted[i - 1] then {Number(ctr)} else {}
  }

  lemma {:induction false} SeenPrefix(events: seq<Event>, a: seq<bool>, b: seq<bool>, i: nat)
    requires i <= |events| && i <= |a| <= |b| && a <= b && EventsOk(events)
    ensures Seen(events, a, i) == Seen(events, b, i)
  {
    if i > 0 {
      SeenPrefix(events, a, b, i - 1);
    }
  }

  /** Record i counts: it is authentic, of the current epoch, and neither a replay nor too old. */
  predicate Passes(events: seq<Event>, accepted: seq<bool>, first: nat, enabled: bool, i: nat)
    requires i < |events| && i <= |accepted| && EventsOk(events)
  {
    match events[i]
    case NextEpoch => false
    case Arrives(ctr, authentic) =>
      && U16At(ctr, 0) == EpochAt(events, first, i) && authentic
      && (enabled ==> Acceptable(Seen(events, accepted, i), Number(ctr)))
  }

  predicate Exact(events: seq<Event>, accepted: seq<bool>, first: nat, enabled: bool)
    requires |accepted| <= |events| && EventsOk(events)
  {
    forall i :: 0 <= i < |accepted| ==> accepted[i] == Passes(events, accepted, first, enabled, i)
  }

  lemma PassesPrefix(events: seq<Event>, a: seq<bool>, b: seq<bool>, first: nat, enabled: bool, i: nat)
    requires i < |events| && i <= |a| && a <= b && EventsOk(events)
    ensures Passes(events, a, first, enabled, i) == Passes(events, b, first, enabled, i)
  {
    SeenPrefix(events, a, b, i);
  }

  /** The incoming side of a connection decides about every record exactly as the plain
      set of accepted numbers says, up to the wrap of the epoch. */
  method Connection(enabled: bool, first: nat, events: seq<Event>) returns (accepted: seq<bool>)
    requires first < EPOCH_LIMIT && EventsOk(events)
    ensures |accepted| <= |events| && Exact(events, accepted, first, enabled)
    ensures |accepted| < |events| ==>
      EpochAt(events, first, |accepted|) == EPOCH_LIMIT - 1 && events[|accepted|].NextEpoch?
  {
    var w := new ReplayWindow(enabled);
    var epoch := first;
    accepted := [];
    for i := 0 to |events|
      invariant fresh(w) && w.enabled == enabled && |accepted| == i
      invariant epoch == EpochAt(events, first, i) < EPOCH_LIMIT
      invariant enabled ==> Represents(w.top, w.window, Seen(events, accepted, i))
      invariant Exact(events, accepted, first, enabled)
    {
      ghost var before, seen := accepted, Seen(events, accepted, i);
      var pass := false;
      match events[i] {
        case NextEpoch =>
          w.Reset();
          epoch := epoch + 1;
          if epoch == EPOCH_LIMIT {
            return;
          }
        case Arrives(ctr, authentic) =>
          if U16At(ctr, 0) == epoch {
            SixBytesIsNumber(ctr);
            pass := w.Check(ctr, seen);
            if pass && authentic {
              w.Update(ctr, seen);
            }
            pass := pass && authentic;
          }
      }
      accepted := accepted + [pass];
      SeenPrefix(events, before, accepted, i);
      assert Seen(events, accepted, i + 1) ==
        if events[i].NextEpoch? then {} else if pass then seen + {Number(events[i].ctr)} else seen;
      forall j | 0 <= j < |accepted|
        ensures accepted[j] == Passes(events, accepted, first, enabled, j)
      {
        PassesPrefix(events, before, accepted, first, enabled, j);
      }
    }
  }

  lemma {:induction false} SeenHasAccepted(events: seq<Event>, accepted: seq<bool>, first: nat, i: nat, j: nat)
    requires i < j <= |accepted| <= |events| && EventsOk(events)
    requires accepted[i] && events[i].Arrives? && EpochAt(events, first, i) == EpochAt(events, first, j)
    ensures Number(events[i].ctr) in Seen(events, accepted, j)
    decreases j
  {
    EpochsGrow(events, first, i, j - 1);
    if i < j - 1 {
      SeenHasAccepted(events, accepted, first, i, j - 1);
    }
  }

  lemma {:induction false} EpochsGrow(events: seq<Event>, first: nat, i: nat, j: nat)
    requires i <= j <= |events|
    ensures EpochAt(events, first, i) <= EpochAt(events, first, j)
    decreases j
  {
    if i < j {
      EpochsGrow(events, first, i, j - 1);
    }
  }

  /** So no pair of epoch and number is accepted twice. */
  lemma {:induction false} NoReplay(events: seq<Event>, accepted: seq<bool>, first: nat, i: nat, j: nat)
    requires EventsOk(events) && i < j < |accepted| <= |events| && Exact(events, accepted, first, true)
    requires accepted[i] && accepted[j]
    ensures events[i].Arrives? && events[j].Arrives?
    ensures U16At(events[i].ctr, 0) != U16At(events[j].ctr, 0) || Number(events[i].ctr) != Number(events[j].ctr)
  {
    assert Passes(events, accepted, first, true, i) && Passes(events, accepted, first, true, j);
    if U16At(events[i].ctr, 0) == U16At(events[j].ctr, 0) {
      SeenHasAccepted(events, accepted, first, i, j);
    }
  }

  lemma {:induction false} SeenWasAccepted(events: seq<Event>, accepted: seq<bool>, first: nat, i: nat, n: nat)
    returns (j: nat)
    requires i <= |accepted| <= |events| && EventsOk(events) && n in Seen(events, accepted, i)
    ensures j < i && accepted[j] && events[j].Arrives? && Number(events[j].ctr) == n
    ensures EpochAt(events, first, j) == EpochAt(events, first, i)
    decreases i
  {
    if accepted[i - 1] && Number(events[i - 1].ctr) == n {
      j := i - 1;
    } else {
      j := SeenWasAccepted(events, accepted, first, i - 1, n);
    }
  }

  /** Record j was accepted in the epoch of record i, and has its number or one that is at
      least 64 above it. */
  predicate StandsInWay(events: seq<Event>, accepted: seq<bool>, j: nat, i: nat)
    requires j < |accepted| <= |events| && i < |events| && EventsOk(events)
    requires events[i].Arrives?
  {
    && accepted[j] && events[j].Arrives? && U16At(events[j].ctr, 0) == U16At(events[i].ctr, 0)
    && (Number(events[j].ctr) == Number(events[i].ctr) || Number(events[j].ctr) >= Number(events[i].ctr) + 64)
  }

  /** A record is accepted if and only if it is authentic, of the current epoch, and no
      record accepted before it has its number or is 64 numbers ahead. */
  lemma {:induction false} AcceptedIff(events: seq<Event>, accepted: seq<bool>, first: nat, i: nat)
    requires EventsOk(events) && i < |accepted| <= |events| && Exact(events, accepted, first, true)
    requires events[i].Arrives?
    ensures accepted[i] <==>
      && events[i].authentic && U16At(events[i].ctr, 0) == EpochAt(events, first, i)
      && forall j :: 0 <= j < i ==> !StandsInWay(events, accepted, j, i)
  {
    hide Number;
    var n, seen := Number(events[i].ctr), Seen(events, accepted, i);
    assert Passes(events, accepted, first, true, i) == accepted[i];
    if U16At(events[i].ctr, 0) == EpochAt(events, first, i) {
      forall j | 0 <= j < i && StandsInWay(events, accepted, j, i)
        ensures !Acceptable(seen, n)
      {
        assert Passes(events, accepted, first, true, j);
        SeenHasAccepted(events, accepted, first, j, i);
      }
      if !Acceptable(seen, n) {
        var m :| m in seen && (m == n || m >= n + WINDOW);
        var j := SeenWasAccepted(events, accepted, first, i, m);
        assert Passes(events, accepted, first, true, j);
        assert StandsInWay(events, accepted, j, i);
      }
    }
  }
}
