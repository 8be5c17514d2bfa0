/** When CALLCONFIRM packets leave, and what number they carry. */
module Cadence {
  import opened Bytes
  import opened CallState
  import opened CallRuns

  /** Timer1Num after i ticks of an unbroken stretch that began at k. */
  function Phase(k: int, i: nat): (p: int)
    requires 0 <= k <= 25
    ensures 0 <= p <= 25
  {
    if k == 0 && i == 0 then 0 else (k - 1 + i) % 25 + 1
  }

  predicate Unbroken(es: seq<Event>) {
    forall e :: e in es ==> !Opens(e)
  }

  lemma PhaseStep(s: Line, e: Event)
    requires InCycle(s) && s.online && !Opens(e) && Next(s, e).online
    ensures Next(s, e).timer1 == if e.Tick? then Phase(s.timer1, 1) else s.timer1
  {
  }

  lemma PhaseAdds(k: int, i: nat)
    requires 0 <= k <= 25
    ensures Phase(Phase(k, 1), i) == Phase(k, i + 1)
  {
  }

  /** Timer1Num is a function of the ticks alone, whatever else happens: it stays
      in 0..25 and, once off 0, repeats every 25 ticks. */
  lemma {:induction false} TimerIsPhase(s: Line, es: seq<Event>)
    requires InCycle(s) && Unbroken(es) && After(s, es).online
    ensures s.online && After(s, es).timer1 == Phase(s.timer1, Ticks(es))
    decreases |es|
  {
    if es != [] {
      var t := Next(s, es[0]);
      CycleStays(s, es[0]);
      TimerIsPhase(t, es[1..]);
      assert es[0] in es;
      PhaseStep(s, es[0]);
      PhaseAdds(s.timer1, Ticks(es[1..]));
    }
  }

  /** Tick i of the stretch sends a packet, if this side was called. */
  predicate SendsAt(k: int, i: nat)
    requires 0 <= k <= 25
  {
    Phase(k, i) % 4 == 0
  }

  function Sends(k: int, n: nat): nat
    requires 0 <= k <= 25
  {
    if n == 0 then 0 else Sends(k, n - 1) + if SendsAt(k, n - 1) then 1 else 0
  }

  lemma {:induction false} SendsSplit(k: int, n: nat)
    requires 0 <= k <= 25
    ensures Sends(k, n + 1) == (if SendsAt(k, 0) then 1 else 0) + Sends(Phase(k, 1), n)
  {
    if n == 0 {
      assert Sends(k, 1) == Sends(k, 0) + if SendsAt(k, 0) then 1 else 0;
    } else {
      SendsSplit(k, n - 1);
      PhaseAdds(k, n - 1);
    }
  }

  /** Stretches in which this side stays the called one. */
  predicate StaysCalled(es: seq<Event>) {
    forall e :: e in es ==> e.Tick? || e.CallConfirm? || (e.SetStatus? && Called(e.status))
  }

  /** The packets a stretch sends carry consecutive numbers. */
  function Numbers(from: int, n: nat): (fx: seq<Effect>)
    ensures |fx| == n && forall i :: 0 <= i < n ==> fx[i] == Confirm(Be32(from + i))
  {
    seq(n, i requires 0 <= i < n => Confirm(Be32(from + i)))
  }

  lemma NumbersJoin(from: int, a: nat, b: nat, next: int, n: nat, first: seq<Effect>, later: seq<Effect>)
    requires first == Numbers(from, a) && later == Numbers(next, b) && next == from + a && n == a + b
    ensures first + later == Numbers(from, n)
  {
  }

  /** How many packets one step sends. */
  function SentBy(s: Line, e: Event): nat
    requires InCycle(s)
  {
    if e.Tick? && SendsAt(s.timer1, 0) then 1 else 0
  }

  lemma CalledStep(s: Line, e: Event)
    requires InCycle(s) && Called(s.status) && StaysCalled([e]) && s.online && Next(s, e).online
    ensures StepEffects(s, e) == Numbers(s.onlineNum, SentBy(s, e))
    ensures Next(s, e).onlineNum == s.onlineNum + SentBy(s, e) && Called(Next(s, e).status)
    ensures Next(s, e).timer1 == if e.Tick? then Phase(s.timer1, 1) else s.timer1
  {
    assert e in [e];
  }

  lemma NeverOpens(es: seq<Event>)
    requires StaysCalled(es)
    ensures Unbroken(es)
  {
  }

  lemma {:induction false} UpAllAlong(s: Line, es: seq<Event>)
    requires Unbroken(es) && After(s, es).online
    ensures s.online
    decreases |es|
  {
    if es != [] {
      assert es[0] in es;
      UpAllAlong(Next(s, es[0]), es[1..]);
    }
  }

  /** Over any stretch in which this side stays called and supervised, the effects
      are the CALLCONFIRM packets, as many as the phase says
      and numbered without a gap. */
  lemma {:induction false} KeepAlive(s: Line, es: seq<Event>)
    requires InCycle(s) && Called(s.status) && StaysCalled(es) && After(s, es).online
    ensures Effects(s, es) == Numbers(s.onlineNum, Sends(s.timer1, Ticks(es)))
    ensures After(s, es).onlineNum == s.onlineNum + Sends(s.timer1, Ticks(es))
    decreases |es|
  {
    if es != [] {
      var e, t, rest := es[0], Next(s, es[0]), es[1..];
      assert StaysCalled([e]) && StaysCalled(rest);
      NeverOpens(es);
      NeverOpens(rest);
      UpAllAlong(s, es);
      UpAllAlong(t, rest);
      CycleStays(s, e);
      CalledStep(s, e);
      KeepAlive(t, rest);
      SendsSplit(s.timer1, Ticks(rest));
      NumbersJoin(s.onlineNum, SentBy(s, e), Sends(t.timer1, Ticks(rest)), t.onlineNum, Sends(s.timer1, Ticks(es)),
                  StepEffects(s, e), Effects(t, rest));
    }
  }

  /** The number a packet carries, for as long as OnlineNum fits 32 bits. */
  lemma NumberDecodes(from: int, n: nat, i: nat)
    requires 0 <= from && from + n <= 0x1_0000_0000 && i < n
    ensures FromBe32(Numbers(from, n)[i].field) == from + i
  {
    Be32Decodes(from + i);
  }

  /** Two packets in a row are four ticks apart, or five around a check. */
  lemma Gaps(k: int, i: nat, g: nat)
    requires 0 <= k <= 25 && SendsAt(k, i) && 1 <= g <= 5
    ensures SendsAt(k, i + g) <==> g == if Phase(k, i) == 24 then 5 else 4
  {
    if 0 < k + i {
      PhaseAhead(k, i, g);
    }
  }

  lemma PhaseAhead(k: int, i: nat, g: nat)
    requires 0 <= k <= 25 && 0 < k + i && g <= 5
    ensures Phase(k, i + g) == if Phase(k, i) + g <= 25 then Phase(k, i) + g else Phase(k, i) + g - 25
  {
  }

  /** Packets sent before tick x of a stretch that began at phase 1. */
  function Count(x: nat): nat {
    6 * (x / 25) + x % 25 / 4
  }

  lemma {:induction false} SendsCounted(k: int, n: nat)
    requires 1 <= k <= 25
    ensures Sends(k, n) == Count(k - 1 + n) - Count(k - 1)
  {
    if n > 0 {
      SendsCounted(k, n - 1);
      CountStep(k - 2 + n);
    }
  }

  lemma CountStep(x: nat)
    ensures Count(x + 1) == Count(x) + if (x % 25 + 1) % 4 == 0 then 1 else 0
  {
    var q, r := x / 25, x % 25;
    assert x == 25 * q + r;
    if r == 24 {
      assert (x + 1) / 25 == q + 1 && (x + 1) % 25 == 0;
    } else {
      assert (x + 1) / 25 == q && (x + 1) % 25 == r + 1;
    }
  }

  /** Each 25 ticks of the steady cycle send six packets, wherever they start. */
  lemma SixPerCycle(k: int, n: nat)
    requires 1 <= k <= 25
    ensures Sends(k, n + 25) == Sends(k, n) + 6
  {
    SendsCounted(k, n);
    SendsCounted(k, n + 25);
    var x := k - 1 + n;
    assert (x + 25) / 25 == x / 25 + 1 && (x + 25) % 25 == x % 25;
  }
}
