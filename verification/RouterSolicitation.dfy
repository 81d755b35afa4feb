/**
 * The router solicitation machine of icmpv6.h: the counter `sent_RS` of an interface, the timers it arms,
 * and the waiting times between solicitations.
 */
module RouterSolicitation {

  const MAX_RTR_SOLICITATION_INTERVAL: nat := 60
  const RTR_SOLICITATION_INTERVAL: nat := 10
  const MAX_RTR_SOLICITATIONS: nat := 3

  function Pow2(n: nat): (p: nat)
    ensures p >= 1
  {
    if n == 0 then 1 else 2 * Pow2(n - 1)
  }

  /** The wait that the code computes from the counter. */
  function WaitFor(sent: nat): nat {
    if sent <= MAX_RTR_SOLICITATIONS then RTR_SOLICITATION_INTERVAL
    else
      var shifted := RTR_SOLICITATION_INTERVAL * Pow2(sent - MAX_RTR_SOLICITATIONS);
      if shifted > MAX_RTR_SOLICITATION_INTERVAL then MAX_RTR_SOLICITATION_INTERVAL else shifted
  }

  /** Truncated binary exponential backoff, as the header's comment has it: 10, 10, 10, 20, 40, 60, 60, ... */
  function Backoff(k: nat): nat
    requires k >= 1
  {
    if k <= 3 then 10 else if k == 4 then 20 else if k == 5 then 40 else 60
  }

  /** The waits, one by one. */
  lemma BackoffTable(k: nat)
    ensures Backoff(1) == 10 && Backoff(2) == 10 && Backoff(3) == 10 && Backoff(4) == 20 && Backoff(5) == 40
    ensures k >= 6 ==> Backoff(k) == 60
  {
  }

  lemma {:induction false} Pow2Grows(n: nat)
    ensures n >= 3 ==> Pow2(n) >= 8
  {
    if n > 3 {
      Pow2Grows(n - 1);
    } else {
      assert Pow2(3) == 2 * Pow2(2) == 4 * Pow2(1) == 8 * Pow2(0);
    }
  }

  lemma WaitIsBackoff(k: nat)
    requires k >= 1
    ensures WaitFor(k) == Backoff(k)
  {
    if k > 3 {
      Pow2Grows(k - 3);
      assert Pow2(2) == 2 * Pow2(1) == 4 * Pow2(0);
    }
  }

  /** `sent` is the 8-bit counter, `pending` the number of armed timers, and `waits` what the solicitations
      sent since the counter was last set to 1 have armed timers for. */
  datatype Solicitor = Solicitor(sent: nat, pending: nat, waits: seq<nat>)

  const IDLE: Solicitor := Solicitor(0, 0, [])

  /** send_RS_to_all_routers: nothing at 0; otherwise one solicitation, and one timer armed. */
  function Send(s: Solicitor): Solicitor {
    if s.sent > 0 then Solicitor((s.sent + 1) % 256, s.pending + 1, s.waits + [WaitFor(s.sent)]) else s
  }

  lemma SendMeans(s: Solicitor)
    ensures s.sent == 0 ==> Send(s) == s
    ensures s.sent > 0 ==> Send(s) == Solicitor((s.sent + 1) % 256, s.pending + 1, s.waits + [WaitFor(s.sent)])
  {
  }

  /** The guard that all reasons for soliciting share: only when none is in process. */
  function Begin(s: Solicitor): Solicitor {
    if s.sent == 0 then Send(Solicitor(1, s.pending, [])) else s
  }

  lemma BeginMeans(s: Solicitor)
    ensures s.sent > 0 ==> Begin(s) == s
    ensures s.sent == 0 ==> Begin(s) == Send(Solicitor(1, s.pending, []))
    ensures Step(s, Wanted) == Begin(s) && Begin(Begin(s)) == Begin(s)
  {
  }

  datatype Event = Wanted | TimerFires | Advertised

  function Step(s: Solicitor, e: Event): Solicitor {
    match e
    case Wanted => Begin(s)
    case TimerFires => if s.pending > 0 then Send(s.(pending := s.pending - 1)) else s
    case Advertised => s.(sent := 0)
  }

  lemma TimerMeans(s: Solicitor)
    requires s.pending > 0
    ensures Step(s, TimerFires) == Send(s.(pending := s.pending - 1))
    ensures s.sent == 0 ==> Step(s, TimerFires) == s.(pending := s.pending - 1)
  {
  }

  lemma AdvertisedMeans(s: Solicitor)
    ensures Step(s, Advertised) == s.(sent := 0)
  {
  }

  function Run(s: Solicitor, events: seq<Event>): Solicitor
    decreases |events|
  {
    if events == [] then s else Run(Step(s, events[0]), events[1..])
  }

  /** What every run keeps. */
  predicate Good(s: Solicitor) {
    && s.sent < 256 && |s.waits| <= 255
    && (s.sent > 0 ==> s.pending > 0 && |s.waits| == s.sent - 1)
    && (forall k | 0 <= k < |s.waits| :: s.waits[k] == Backoff(k + 1))
  }

  lemma StepKeepsGood(s: Solicitor, e: Event)
    requires Good(s)
    ensures Good(Step(s, e))
  {
    WaitIsBackoff(1);
    if s.sent > 0 {
      WaitIsBackoff(s.sent);
    }
    hide WaitFor, Backoff;
    var t := Step(s, e);
    assert forall k | 0 <= k < |t.waits| && k < |s.waits| && t.waits != [WaitFor(1)] :: t.waits[k] == s.waits[k];
  }

  /** In every run: a counter that is not 0 has a timer pending, and the k-th solicitation since the counter
      was last set to 1 has armed one for Backoff(k) seconds. */
  lemma {:induction false} BackoffOverRuns(s: Solicitor, events: seq<Event>)
    requires Good(s)
    ensures Good(Run(s, events))
    decreases |events|
  {
    if events != [] {
      StepKeepsGood(s, events[0]);
      BackoffOverRuns(Step(s, events[0]), events[1..]);
    }
  }

  lemma IdleIsGood()
    ensures Good(IDLE)
  {
  }

  /** After an advertisement the pending timers run out one by one; nothing is sent, nothing armed again. */
  lemma {:induction false} QuietAfterAdvertisement(s: Solicitor, n: nat)
    requires s.sent == 0 && n <= s.pending
    ensures Run(s, seq(n, _ => TimerFires)) == s.(pending := s.pending - n)
    decreases n
  {
    var events := seq(n, _ => TimerFires);
    if n > 0 {
      assert events[1..] == seq(n - 1, _ => TimerFires);
      QuietAfterAdvertisement(s.(pending := s.pending - 1), n - 1);
    }
  }

  /** Undisturbed, n timer turns send n more solicitations, until the 255th makes the counter wrap to 0;
      from then on all turns are silent. */
  lemma {:induction false} Undisturbed(s: Solicitor, n: nat)
    requires Good(s) && s.sent > 0 && n <= 256 - s.sent
    ensures Run(s, seq(n, _ => TimerFires)).sent == (s.sent + n) % 256
    ensures |Run(s, seq(n, _ => TimerFires)).waits| == |s.waits| + n
    ensures Run(s, seq(n, _ => TimerFires)).pending == s.pending
    decreases n
  {
    var events := seq(n, _ => TimerFires);
    if n > 0 {
      var t := Step(s, TimerFires);
      StepKeepsGood(s, TimerFires);
      assert events[1..] == seq(n - 1, _ => TimerFires);
      if t.sent > 0 {
        Undisturbed(t, n - 1);
      } else {
        assert n == 1;
      }
    }
  }

  /** A solicitor that nobody answers falls silent with its 255th solicitation. */
  lemma SilentAfter255(s: Solicitor)
    requires Good(s) && s.sent == 0
    ensures var r := Run(Begin(s), seq(254, _ => TimerFires)); r.sent == 0 && |r.waits| == 255
  {
    StepKeepsGood(s, Wanted);
    Undisturbed(Begin(s), 254);
  }

  /** Nothing removes a timer: an advertisement and a new start leave two pending, and both keep sending. */
  lemma TwoTimers(s: Solicitor)
    requires Good(s) && s.sent > 0
    ensures var r := Run(s, [Advertised, Wanted]); r.pending == s.pending + 1 >= 2 && r.sent == 2
    ensures var r := Run(s, [Advertised, Wanted, TimerFires, TimerFires]); r.sent == 4 && r.pending == s.pending + 1
  {
    var a := Step(s, Advertised);
    var b := Step(a, Wanted);
    var c := Step(b, TimerFires);
    assert [Advertised, Wanted][1..] == [Wanted] && [Wanted][1..] == [];
    var tail := [Wanted, TimerFires, TimerFires];
    assert [Advertised, Wanted, TimerFires, TimerFires][1..] == tail;
    assert tail[1..] == [TimerFires, TimerFires];
    assert [TimerFires, TimerFires][1..] == [TimerFires] && [TimerFires][1..] == [];
    hide WaitFor;
    assert Run(s, [Advertised, Wanted]) == Run(a, [Wanted]) == Run(b, []) == b;
    assert Run(c, [TimerFires]) == Run(Step(c, TimerFires), []);
    assert Run(a, tail) == Run(b, [TimerFires, TimerFires]) == Run(c, [TimerFires]);
  }
}
