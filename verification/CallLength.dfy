/** The longest a call can last, to the tick. */
module CallLength {
  import opened CallState
  import opened CallRuns
  import opened Cadence

  /** n ticks after an accepted answer the line may still be up like this: calling
      since the answer, talking since a tick not after the 502nd, or with its status
      cleared and as much patience left as fits before tick 4151. Timer1Num is
      where n ticks have brought it. */
  predicate Reachable(s: Line, n: nat) {
    && s.timer1 == Phase(0, n)
    && match s.status
       case 1 => s.timeOut == n <= 502
       case 5 => 0 <= s.timeOut <= 3602 && n <= s.timeOut + 502
       case 0 => n + Patience(s) <= 4151
       case _ => false
  }

  /** Where the status is cleared decides: of the ticks up to 4104 none leaves the
      confirmation check more than 4151 in all. */
  lemma ClearedInTime(n: nat)
    requires n <= 4104
    ensures n + (51 - Phase(0, n)) <= 4151
  {
    if n > 0 {
      var q, r := (n - 1) / 25, (n - 1) % 25;
      assert n - 1 == 25 * q + r && Phase(0, n) == r + 1;
      assert q <= 164;
    }
  }

  lemma ReachableStep(s: Line, e: Event, n: nat)
    requires s.online && Reachable(s, n) && !Opens(e) && !e.SetStatus?
    ensures var t := Next(s, e); t.online ==> Reachable(t, if e.Tick? then n + 1 else n)
  {
    if n <= 4104 {
      ClearedInTime(n);
    }
    PhaseAdds(0, n);
    PhaseNext(n);
  }

  lemma PhaseNext(n: nat)
    ensures Phase(0, n + 1) == if Phase(0, n) == 25 then 1 else Phase(0, n) + 1
  {
  }

  lemma {:induction false} ReachableRun(s: Line, es: seq<Event>, n: nat)
    requires s.online && Reachable(s, n) && Unopened(es)
    ensures After(s, es).online ==> Reachable(After(s, es), n + Ticks(es))
    decreases |es|
  {
    if es != [] {
      var t := Next(s, es[0]);
      assert es[0] in es;
      ReachableStep(s, es[0], n);
      if t.online {
        ReachableRun(t, es[1..], if es[0].Tick? then n + 1 else n);
      } else {
        DownStaysDown(t, es[1..]);
      }
    }
  }

  /** From an accepted answer on, under every interleaving of ticks with packets
      and the send thread, supervision is over by tick 4151. */
  lemma CallBound(s: Line, es: seq<Event>)
    requires Unopened(es) && Ticks(es) >= 4151
    ensures !After(Next(s, CallAnswer(true)), es).online
  {
    ReachableRun(Next(s, CallAnswer(true)), es, 0);
  }

  // ------------------------------------------------------ the bound is reached

  /** n ticks, each followed by a confirmation from the peer, and then es. */
  function Kept(n: nat, es: seq<Event>): seq<Event> {
    if n == 0 then es else [Tick] + ([CallConfirm(true)] + Kept(n - 1, es))
  }

  /** The ticks a caller's status is good for. */
  function Lasts(status: int): int {
    if status == CB_ST_CALLING then 502 else if status == CB_ST_TALKING then 3602 else -1
  }

  /** A line n ticks on, everything else as it was. */
  function Later(s: Line, n: nat): Line
    requires InCycle(s)
  {
    s.(timer1 := Phase(s.timer1, n), timeOut := s.timeOut + n)
  }

  lemma LaterAdds(s: Line, n: nat)
    requires InCycle(s)
    ensures InCycle(Later(s, 1)) && Later(Later(s, 1), n) == Later(s, n + 1) && Later(s, 0) == s
  {
    PhaseAdds(s.timer1, n);
  }

  lemma KeptOnce(s: Line)
    requires InCycle(s) && s.online && s.confirm && 0 <= s.timeOut
    requires s.timeOut < Lasts(s.status)
    ensures Next(Next(s, Tick), CallConfirm(true)) == Later(s, 1)
  {
  }

  lemma KeptStep(s: Line, es: seq<Event>)
    requires InCycle(s) && s.online && s.confirm && 0 <= s.timeOut < Lasts(s.status) && Unopened(es)
    ensures var run := [Tick] + ([CallConfirm(true)] + es);
            After(s, run) == After(Later(s, 1), es) && Ticks(run) == 1 + Ticks(es) && Unopened(run)
  {
    Joined(s, Tick, [CallConfirm(true)] + es);
    Joined(Next(s, Tick), CallConfirm(true), es);
    KeptOnce(s);
  }

  /** A line kept up for n ticks goes on from there. */
  lemma {:induction false} KeptThen(s: Line, n: nat, es: seq<Event>)
    requires InCycle(s) && s.online && s.confirm && 0 <= s.timeOut && s.timeOut + n <= Lasts(s.status) && Unopened(es)
    ensures After(s, Kept(n, es)) == After(Later(s, n), es)
    ensures Ticks(Kept(n, es)) == n + Ticks(es) && Unopened(Kept(n, es))
    decreases n
  {
    if n == 0 {
      LaterAdds(s, 0);
    } else {
      LaterAdds(s, n - 1);
      KeptThen(Later(s, 1), n - 1, es);
      KeptStep(s, Kept(n - 1, es));
    }
  }

  lemma Joined(s: Line, e: Event, es: seq<Event>)
    ensures After(s, [e] + es) == After(Next(s, e), es)
    ensures Ticks([e] + es) == (if e.Tick? then 1 else 0) + Ticks(es)
    ensures Unopened(es) && !Opens(e) && !e.SetStatus? ==> Unopened([e] + es)
  {
    assert ([e] + es)[1..] == es;
  }

  /** Called for calling ticks, talked for talking ticks, status cleared by a found
      address, then silence. */
  function Longest(calling: nat, talking: nat, silent: nat): seq<Event> {
    Kept(calling, [CallStart(true)] + Kept(talking, [NsReply(true)] + OnlyTicks(silent)))
  }

  lemma LongestRun(s: Line, calling: nat, talking: nat, silent: nat)
    requires s == Line(CB_ST_CALLING, true, 0, true, 0, 0) && calling <= 502 && talking <= 3602
    ensures Ticks(Longest(calling, talking, silent)) == calling + talking + silent
    ensures After(s, Longest(calling, talking, silent)).online <==> silent < 51 - Phase(Phase(0, calling), talking)
    ensures Unopened(Longest(calling, talking, silent))
  {
    hide After, Ticks, Kept, OnlyTicks, Opened, Unopened;
    var u := s.(status := CB_ST_TALKING, timer1 := Phase(0, calling));
    var v := u.(status := CB_ST_NULL, timer1 := Phase(u.timer1, talking), timeOut := talking);
    var last, late := OnlyTicks(silent), [NsReply(true)] + OnlyTicks(silent);
    NoTicksOpen(silent);
    TicksOnly(silent);
    Joined(Later(u, talking), NsReply(true), last);
    assert Next(Later(u, talking), NsReply(true)) == v;
    KeptThen(u, talking, late);
    Joined(Later(s, calling), CallStart(true), Kept(talking, late));
    assert Next(Later(s, calling), CallStart(true)) == u;
    KeptThen(s, calling, [CallStart(true)] + Kept(talking, late));
    SilenceIsExact(v, silent);
  }

  lemma {:induction false} TicksOnly(n: nat)
    ensures Unopened(OnlyTicks(n))
  {
    if n > 0 {
      TicksOnly(n - 1);
    }
  }

  /** The bound is the best there is: a call that is up after 4150 ticks. */
  lemma BoundIsReached(s: Line) returns (es: seq<Event>)
    ensures Unopened(es) && Ticks(es) == 4150
    ensures After(Next(s, CallAnswer(true)), es).online
  {
    var calling, talking, silent := 502, 3602, 46;
    LongestRun(Next(s, CallAnswer(true)), calling, talking, silent);
    es := Longest(calling, talking, silent);
  }
}
