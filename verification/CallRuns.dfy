/** Supervision over whole runs: any interleaving of ticks and other threads' steps. */
module CallRuns {
  import opened Bytes
  import opened CallState

  // ------------------------------------------------------------ the teardown

  /** Why a tick ends the call, if it does. A missing confirmation goes first. */
  function Reason(s: Line): Option<Opt> {
    if !s.online || s.status !in {1, 2, 5, 6} then None
    else if s.timer1 >= 25 && !s.confirm then Some(CB_TALK_STOP)
    else if s.timeOut % 2 != 0 then None
    else if s.status <= 2 then (if s.timeOut >= 502 then Some(CB_CALL_TIMEOUT) else None)
    else if s.timeOut >= 3602 then Some(CB_TALK_TIMEOUT)
    else None
  }

  predicate IsConfirms(fx: seq<Effect>) {
    forall e :: e in fx ==> e.Confirm?
  }

  /** A tick ends a call at most once, in this order: stop_talk finds the status
      still live, the status is cleared, the report carries the cleared status,
      and supervision is off. A tick that gives no report leaves the status be. A
      confirmation goes first, every fourth tick, if this side was called. */
  lemma TickEndsOnce(s: Line) returns (sent: seq<Effect>)
    ensures IsConfirms(sent) && |sent| <= 1
    ensures sent == if s.online && s.timer1 <= 24 && s.timer1 % 4 == 0 && (s.status == 2 || s.status == 6)
                    then [Confirm(Be32(s.onlineNum))] else []
    ensures TickLine(s).onlineNum == s.onlineNum + |sent|
    ensures match Reason(s)
            case None => TickEffects(s) == sent && TickLine(s).status == s.status
            case Some(o) =>
              && TickEffects(s) == sent + [StopTalk(s.status), Callback(o, CB_ST_NULL)]
              && TickLine(s).status == CB_ST_NULL && !TickLine(s).online && s.status > CB_ST_NULL
  {
    sent := if s.online && OnlineCheckEffects(s) != [] && OnlineCheckEffects(s)[0].Confirm? then OnlineCheckEffects(s) else [];
    assert [] + TalkCtrlEffects(OnlineCheck(s)) == TalkCtrlEffects(OnlineCheck(s));
  }

  // ------------------------------------------- what the other threads do, in numbers

  /** CALLEND: the peer's request ends a caller's call, and so does its reply to
      this side's; a reply to nothing only switches supervision off. */
  lemma CallEndSteps(s: Line, ask: bool, slot: bool)
    ensures var t, fx := Next(s, CallEnd(ask, slot)), StepEffects(s, CallEnd(ask, slot));
            if s.status != 1 && s.status != 5 then t == s && fx == []
            else
              && !t.online && !t.confirm && t.timer1 == s.timer1 && t.onlineNum == s.onlineNum && t.timeOut == s.timeOut
              && if ask || slot then t.status == 0 && fx == [Callback(CB_TALK_STOP, 0)] else t.status == s.status && fx == []
  {
  }

  /** An accepted answer starts every counter at 0, with a confirmation in hand;
      the start of talking restarts the clock; an unanswered CALLEND clears. */
  lemma CallSteps(s: Line)
    ensures var t := Next(s, CallAnswer(true));
            t.status == 1 && t.confirm && t.online && t.timer1 == t.onlineNum == t.timeOut == 0
    ensures Next(s, CallAnswer(false)) == s && Next(s, CallStart(false)) == s
    ensures var t := Next(s, CallStart(true));
            if s.status == 1 then t == s.(status := 5, timeOut := 0) else t == s
    ensures var t := Next(s, CallEndUnanswered);
            t.status == 0 && !t.online && !t.confirm && StepEffects(s, CallEndUnanswered) == [Callback(CB_TALK_STOP, 0)]
  {
  }

  /** A confirmation is taken from the called side as a request, from the calling
      side as a reply, and changes nothing else. */
  lemma ConfirmSteps(s: Line, ask: bool)
    ensures var t := Next(s, CallConfirm(ask));
            && (t.confirm <==> s.confirm || (if ask then s.status == 1 || s.status == 5 else s.status == 2 || s.status == 6))
            && t == s.(confirm := t.confirm) && StepEffects(s, CallConfirm(ask)) == []
  {
  }

  /** A busy line, a found address and set_device_status touch the status alone:
      supervision goes on. */
  lemma StatusSteps(s: Line, a: bool, b: bool, status: int)
    ensures Next(s, LineUse(a, b)) == (if a && b then s.(status := 0) else s) && StepEffects(s, LineUse(a, b)) == []
    ensures Next(s, NsReply(a)) == (if a then s.(status := 0) else s) && StepEffects(s, NsReply(a)) == []
    ensures Next(s, SetStatus(status)) == s.(status := status) && StepEffects(s, SetStatus(status)) == []
  {
  }

  predicate Opens(e: Event) {
    e.CallAnswer? && e.slot
  }

  function Opened(es: seq<Event>): nat {
    if es == [] then 0 else (if Opens(es[0]) then 1 else 0) + Opened(es[1..])
  }

  function Reports(fx: seq<Effect>): nat {
    if fx == [] then 0 else (if fx[0].Callback? then 1 else 0) + Reports(fx[1..])
  }

  lemma {:induction false} ReportsJoin(a: seq<Effect>, b: seq<Effect>)
    ensures Reports(a + b) == Reports(a) + Reports(b)
  {
    if a == [] {
      assert a + b == b;
    } else {
      ReportsJoin(a[1..], b);
      assert (a + b)[1..] == a[1..] + b;
    }
  }

  /** Supervision is only ever switched on by an accepted answer. */
  lemma OnlyAnswersOpen(s: Line, e: Event)
    requires !s.online && !Opens(e)
    ensures !Next(s, e).online
  {
  }

  lemma ReportsOfTick(s: Line)
    ensures Reports(TickEffects(s)) == Bit(Reason(s).Some?)
  {
    var sent := TickEndsOnce(s);
    if Reason(s).Some? {
      var end := [StopTalk(s.status), Callback(Reason(s).value, CB_ST_NULL)];
      ReportsJoin(sent, end);
      assert end[1..] == [end[1]] && end[1..][1..] == [];
    }
    assert sent != [] ==> sent[0] in sent && sent[1..] == [];
  }

  lemma OneReportPerTick(s: Line)
    ensures Reports(TickEffects(s)) <= 1
    ensures Reports(TickEffects(s)) == 1 ==> s.online && !TickLine(s).online
  {
    ReportsOfTick(s);
    var _ := TickEndsOnce(s);
  }

  /** Over any run the timer thread reports no more ends than there were calls. */
  lemma {:induction false} TimerReportsOnce(s: Line, es: seq<Event>)
    ensures Reports(TimerEffects(s, es)) + Bit(After(s, es).online) <= Bit(s.online) + Opened(es)
    decreases |es|
  {
    if es != [] {
      var t := Next(s, es[0]);
      TimerReportsOnce(t, es[1..]);
      ReportsJoin(if es[0].Tick? then TickEffects(s) else [], TimerEffects(t, es[1..]));
      OneReportPerTick(s);
    }
  }

  /** After the end, ticks do nothing until the next accepted answer. */
  lemma {:induction false} QuietAfterwards(s: Line, es: seq<Event>)
    requires !s.online && Opened(es) == 0
    ensures TimerEffects(s, es) == [] && !After(s, es).online
    ensures After(s, es).timer1 == s.timer1 && After(s, es).onlineNum == s.onlineNum
    decreases |es|
  {
    if es != [] {
      QuietAfterwards(Next(s, es[0]), es[1..]);
    }
  }

  // ----------------------------------------------------- reports of all threads

  function Bit(b: bool): nat {
    if b then 1 else 0
  }

  /** How many steps of a run meet the line in a state where p holds of them. */
  function Count(s: Line, es: seq<Event>, p: (Line, Event) -> bool): nat
    decreases |es|
  {
    if es == [] then 0 else Bit(p(s, es[0])) + Count(Next(s, es[0]), es[1..], p)
  }

  /** A call begins: the status becomes live. */
  predicate Raises(s: Line, e: Event) {
    !Live(s.status) && Live(Next(s, e).status)
  }

  /** A call is forgotten without a report: busy line, found address, set status. */
  predicate Drops(s: Line, e: Event) {
    Live(s.status) && !Live(Next(s, e).status) && (e.LineUse? || e.NsReply? || e.SetStatus?)
  }

  /** The send thread gives up on a CALLEND when no call is left. */
  predicate Strays(s: Line, e: Event) {
    !Live(s.status) && e.CallEndUnanswered?
  }

  lemma StepBalance(s: Line, e: Event)
    ensures Reports(StepEffects(s, e)) + Bit(Live(Next(s, e).status)) + Bit(Drops(s, e))
            == Bit(Live(s.status)) + Bit(Raises(s, e)) + Bit(Strays(s, e))
    ensures Reports(StepEffects(s, e)) == 0 || Live(s.status) || Strays(s, e)
  {
    if e.Tick? {
      ReportsOfTick(s);
    } else {
      assert [Callback(CB_TALK_STOP, CB_ST_NULL)][1..] == [];
    }
  }

  /** Every end report over a run is paid for by a call that was live or began,
      except those the send thread gives for a call already over. */
  lemma {:induction false} ReportsBalance(s: Line, es: seq<Event>)
    ensures Reports(Effects(s, es)) + Bit(Live(After(s, es).status)) + Count(s, es, Drops)
            == Bit(Live(s.status)) + Count(s, es, Raises) + Count(s, es, Strays)
    decreases |es|
  {
    if es != [] {
      var t := Next(s, es[0]);
      ReportsBalance(t, es[1..]);
      StepBalance(s, es[0]);
      ReportsJoin(StepEffects(s, es[0]), Effects(t, es[1..]));
    }
  }

  function SetLive(es: seq<Event>): nat {
    if es == [] then 0 else Bit(es[0].SetStatus? && Live(es[0].status)) + SetLive(es[1..])
  }

  lemma {:induction false} OnlyTheseRaise(s: Line, es: seq<Event>)
    ensures Count(s, es, Raises) <= Opened(es) + SetLive(es)
    decreases |es|
  {
    if es != [] {
      OnlyTheseRaise(Next(s, es[0]), es[1..]);
    }
  }

  /** Whoever gives an end report, there is a call to end. */
  predicate ReportsEndCalls(s: Line, es: seq<Event>)
    decreases |es|
  {
    es == [] || (Reports(StepEffects(s, es[0])) <= Bit(Live(s.status)) && ReportsEndCalls(Next(s, es[0]), es[1..]))
  }

  lemma {:induction false} StraysBreak(s: Line, es: seq<Event>)
    ensures ReportsEndCalls(s, es) <==> Count(s, es, Strays) == 0
    decreases |es|
  {
    if es != [] {
      StepBalance(s, es[0]);
      StraysBreak(Next(s, es[0]), es[1..]);
    }
  }

  /** One report a call, whichever thread gives it, exactly when the send thread
      never gives up on a CALLEND after the call is over. */
  lemma OneReportPerCall(s: Line, es: seq<Event>)
    ensures ReportsEndCalls(s, es) <==> Count(s, es, Strays) == 0
    ensures Reports(Effects(s, es)) + Bit(Live(After(s, es).status))
            <= Bit(Live(s.status)) + Opened(es) + SetLive(es) + Count(s, es, Strays)
  {
    StraysBreak(s, es);
    ReportsBalance(s, es);
    OnlyTheseRaise(s, es);
  }

  lemma {:induction false} EffectsJoin(s: Line, a: seq<Event>, b: seq<Event>)
    ensures Effects(s, a + b) == Effects(s, a) + Effects(After(s, a), b)
    ensures After(s, a + b) == After(After(s, a), b) && Ticks(a + b) == Ticks(a) + Ticks(b)
    decreases |a|
  {
    if a == [] {
      assert a + b == b;
    } else {
      assert (a + b)[1..] == a[1..] + b;
      EffectsJoin(Next(s, a[0]), a[1..], b);
    }
  }

  /** A calling line that hears nothing: stop_talk and one report, at the end of
      its patience. */
  lemma {:induction false} SilentCalling(s: Line, n: nat)
    requires InCycle(s) && s.online && s.status == CB_ST_CALLING && n == Patience(s) && 0 <= s.timeOut && s.timeOut + n <= 502
    ensures Effects(s, OnlyTicks(n)) == [StopTalk(CB_ST_CALLING), Callback(CB_TALK_STOP, CB_ST_NULL)]
    decreases n
  {
    assert OnlyTicks(n)[1..] == OnlyTicks(n - 1);
    if n > 1 {
      assert TickEffects(s) == [];
      SilentCalling(TickLine(s), n - 1);
    } else {
      assert OnlyTicks(0) == [];
    }
  }

  /** Two reports for one call: nobody confirms, the timer hangs up, and the
      CALLEND it sent goes unanswered, too. */
  lemma ReportedTwice(s: Line, es: seq<Event>)
    requires es == [CallAnswer(true)] + OnlyTicks(51) + [CallEndUnanswered]
    ensures Opened(es) == 1 && SetLive(es) == 0
    ensures Effects(s, es) ==
              [StopTalk(CB_ST_CALLING), Callback(CB_TALK_STOP, CB_ST_NULL), Callback(CB_TALK_STOP, CB_ST_NULL)]
  {
    var t, n := Next(s, CallAnswer(true)), 51;
    assert es[1..] == OnlyTicks(n) + [CallEndUnanswered];
    SilentCalling(t, n);
    EffectsJoin(t, OnlyTicks(n), [CallEndUnanswered]);
    assert [CallEndUnanswered][1..] == [];
    TicksRaiseNothing(n, es[1..]);
  }

  lemma {:induction false} TicksRaiseNothing(n: nat, es: seq<Event>)
    requires es == OnlyTicks(n) + [CallEndUnanswered]
    ensures Opened(es) == 0 && SetLive(es) == 0
  {
    if n == 0 {
      assert es[1..] == [];
    } else {
      assert es[1..] == OnlyTicks(n - 1) + [CallEndUnanswered];
      TicksRaiseNothing(n - 1, es[1..]);
    }
  }

  // --------------------------------------------------------------- a silent peer

  /** Where Timer1Num is at the boundary of ticks once supervision started. */
  predicate InCycle(s: Line) {
    0 <= s.timer1 <= 25
  }

  /** Ticks until the confirmation check gives up if nothing is heard. */
  function Patience(s: Line): int {
    if !s.online then 0 else 26 - s.timer1 + if s.confirm then 25 else 0
  }

  predicate Silent(es: seq<Event>) {
    forall e :: e in es ==> !Opens(e) && !e.CallConfirm?
  }

  lemma CycleStays(s: Line, e: Event)
    requires InCycle(s)
    ensures InCycle(Next(s, e))
  {
  }

  lemma PatienceShrinks(s: Line, e: Event)
    requires InCycle(s) && !Opens(e) && !e.CallConfirm?
    ensures var t := Next(s, e); t.online ==> Patience(t) + (if e.Tick? then 1 else 0) <= Patience(s)
    ensures Next(s, e).online ==> s.online
  {
  }

  /** However the other threads interleave, ticks without a confirmation use up
      the line's patience. */
  lemma {:induction false} SilenceEnds(s: Line, es: seq<Event>)
    requires InCycle(s) && Silent(es)
    ensures After(s, es).online ==> s.online && Patience(After(s, es)) + Ticks(es) <= Patience(s) && InCycle(After(s, es))
    decreases |es|
  {
    if es != [] {
      CycleStays(s, es[0]);
      PatienceShrinks(s, es[0]);
      SilenceEnds(Next(s, es[0]), es[1..]);
    }
  }

  /** Steps that leave it to the timer to end the call. */
  predicate Lively(e: Event) {
    e.Tick? || e.CallConfirm? || (e.SetStatus? && Live(e.status))
  }

  predicate AllLively(es: seq<Event>) {
    forall e :: e in es ==> Lively(e)
  }

  /** Step k is the teardown of the run: it finds the line up and live and leaves
      it down with status 0. The effects of the whole run are confirmations, then
      stop_talk with that live status, then the report; nothing comes after. */
  predicate TornDownAt(s: Line, es: seq<Event>, k: nat) {
    && k < |es| && es[k].Tick?
    && var t, fx := After(s, es[..k]), Effects(s, es);
       && t.online && Reason(t).Some? && !TickLine(t).online && TickLine(t).status == CB_ST_NULL
       && |fx| >= 2 && IsConfirms(fx[..|fx| - 2])
       && fx[|fx| - 2] == StopTalk(t.status) && fx[|fx| - 1] == Callback(Reason(t).value, CB_ST_NULL)
  }

  predicate TornDown(s: Line, es: seq<Event>) {
    exists k: nat :: k < |es| && TornDownAt(s, es, k)
  }

  lemma {:induction false} NothingAfterwards(s: Line, es: seq<Event>)
    requires !s.online && AllLively(es)
    ensures Effects(s, es) == [] && !After(s, es).online
    decreases |es|
  {
    if es != [] {
      assert Lively(es[0]);
      NothingAfterwards(Next(s, es[0]), es[1..]);
    }
  }

  lemma PrefixRun(s: Line, es: seq<Event>, k: nat)
    requires es != [] && k < |es[1..]|
    ensures After(s, es[..k + 1]) == After(Next(s, es[0]), es[1..][..k])
  {
    assert es[..k + 1][1..] == es[1..][..k];
  }

  lemma StaysUp(s: Line, e: Event)
    requires s.online && Live(s.status) && Lively(e) && Next(s, e).online
    ensures Live(Next(s, e).status) && IsConfirms(StepEffects(s, e))
  {
    if e.Tick? {
      var sent := TickEndsOnce(s);
    }
  }

  /** A live line that is up stays so, sending nothing but confirmations, until
      the timer tears the call down. */
  lemma {:induction false} DownMeansTornDown(s: Line, es: seq<Event>)
    requires s.online && Live(s.status) && AllLively(es)
    ensures if After(s, es).online then Live(After(s, es).status) && IsConfirms(Effects(s, es)) else TornDown(s, es)
    decreases |es|
  {
    if es != [] {
      var t, rest := Next(s, es[0]), es[1..];
      assert Lively(es[0]);
      if t.online {
        StaysUp(s, es[0]);
        DownMeansTornDown(t, rest);
        if !After(t, rest).online {
          var k :| 0 <= k < |rest| && TornDownAt(t, rest, k);
          LaterTeardown(s, es, k);
        }
      } else {
        TearsDown(s, es);
      }
    }
  }

  lemma TearsDown(s: Line, es: seq<Event>)
    requires s.online && Live(s.status) && es != [] && AllLively(es) && !Next(s, es[0]).online
    ensures TornDownAt(s, es, 0) && !After(s, es).online
  {
    assert Lively(es[0]);
    var sent := TickEndsOnce(s);
    NothingAfterwards(TickLine(s), es[1..]);
    assert Effects(s, es) == TickEffects(s);
    assert es[..0] == [];
  }

  lemma LaterTeardown(s: Line, es: seq<Event>, k: nat)
    requires s.online && Live(s.status) && es != [] && Lively(es[0]) && Next(s, es[0]).online && k < |es| - 1 && TornDownAt(Next(s, es[0]), es[1..], k)
    ensures TornDownAt(s, es, k + 1)
  {
    hide Next, StepEffects, Reason, TickLine, After;
    StaysUp(s, es[0]);
    PrefixRun(s, es, k);
    var now, later := StepEffects(s, es[0]), Effects(Next(s, es[0]), es[1..]);
    var n := |now| + |later|;
    assert (now + later)[..n - 2] == now + later[..|later| - 2];
  }

  lemma {:induction false} ConfirmsOnly(fx: seq<Effect>)
    requires IsConfirms(fx)
    ensures Reports(fx) == 0
  {
    if fx != [] {
      assert fx[0] in fx;
      ConfirmsOnly(fx[1..]);
    }
  }

  lemma OneAtTheEnd(a: Effect, b: Effect, fx: seq<Effect>)
    requires fx == [a, b] && !a.Callback? && b.Callback?
    ensures Reports(fx) == 1
  {
    var rest := fx[1..];
    assert rest[0] == b && rest[1..] == [];
    assert Reports(rest) == 1;
  }

  /** A teardown is one report. */
  lemma TornDownOnce(s: Line, es: seq<Event>)
    requires TornDown(s, es)
    ensures Reports(Effects(s, es)) == 1
  {
    var k :| 0 <= k < |es| && TornDownAt(s, es, k);
    var fx := Effects(s, es);
    var sent, end := fx[..|fx| - 2], fx[|fx| - 2..];
    ConfirmsOnly(sent);
    assert fx == sent + end && end[1..] == [end[1]];
    ReportsJoin(sent, end);
    OneAtTheEnd(end[0], end[1], end);
  }

  /** From any tick boundary, at most 51 - Timer1Num ticks of silence, and then
      supervision is over. A call that was live and has not been ended by another
      thread has been torn down. */
  lemma SilentPeerBound(s: Line, es: seq<Event>)
    requires InCycle(s) && Silent(es) && Ticks(es) >= 51 - s.timer1
    ensures !After(s, es).online
    ensures s.online && Live(s.status) && AllLively(es) ==> TornDown(s, es) && Reports(Effects(s, es)) == 1
  {
    SilenceEnds(s, es);
    if s.online && Live(s.status) && AllLively(es) {
      DownMeansTornDown(s, es);
      TornDownOnce(s, es);
    }
  }

  /** A call that is live is supervised. */
  predicate Sound(s: Line) {
    s.online || !Live(s.status)
  }

  /** A reply to CALLEND that matches no request, met by a caller, or a status set
      to a live one while supervision is off. */
  predicate Breaks(s: Line, e: Event) {
    || (e.CallEnd? && !e.ask && !e.slot && (s.status == CB_ST_CALLING || s.status == CB_ST_TALKING))
    || (e.SetStatus? && Live(e.status) && !s.online)
  }

  predicate SoundThroughout(s: Line, es: seq<Event>)
    decreases |es|
  {
    Sound(s) && (es == [] || SoundThroughout(Next(s, es[0]), es[1..]))
  }

  predicate NothingBreaks(s: Line, es: seq<Event>)
    decreases |es|
  {
    es == [] || (!Breaks(s, es[0]) && NothingBreaks(Next(s, es[0]), es[1..]))
  }

  /** Going offline ends the call, too, at every point of a run, exactly when no
      step of it is one of the two. */
  lemma {:induction false} OfflineMeansEnded(s: Line, es: seq<Event>)
    requires Sound(s)
    ensures SoundThroughout(s, es) <==> NothingBreaks(s, es)
    ensures NothingBreaks(s, es) ==> Sound(After(s, es))
    decreases |es|
  {
    if es != [] && !Breaks(s, es[0]) {
      OfflineMeansEnded(Next(s, es[0]), es[1..]);
    }
  }

  /** The reply that matches no request: supervision is off, the call still on,
      nobody has been told, and no number of ticks ends it. */
  lemma UnmatchedReply(s: Line, n: nat, es: seq<Event>)
    requires s.online && (s.status == CB_ST_CALLING || s.status == CB_ST_TALKING)
    requires es == [CallEnd(false, false)] + OnlyTicks(n)
    ensures var t := After(s, es); !t.online && t.status == s.status && Effects(s, es) == []
  {
    var t := Next(s, es[0]);
    assert es[1..] == OnlyTicks(n);
    DeadTicks(t, n);
  }

  lemma {:induction false} DeadTicks(s: Line, n: nat)
    requires !s.online
    ensures After(s, OnlyTicks(n)) == s && Effects(s, OnlyTicks(n)) == []
  {
    if n > 0 {
      assert OnlyTicks(n)[1..] == OnlyTicks(n - 1);
      DeadTicks(s, n - 1);
    }
  }

  function OnlyTicks(n: nat): (es: seq<Event>)
    ensures |es| == n
  {
    if n == 0 then [] else [Tick] + OnlyTicks(n - 1)
  }

  /** The bound is exact: with neither confirmations nor a duration limit in reach
      the line stays up for just that many ticks. */
  lemma {:induction false} SilenceIsExact(s: Line, n: nat)
    requires InCycle(s) && s.online && (Live(s.status) ==> 0 <= s.timeOut && s.timeOut + n <= 502)
    ensures After(s, OnlyTicks(n)).online <==> n < Patience(s)
    decreases n
  {
    if n > 0 {
      var t := TickLine(s);
      assert OnlyTicks(n)[1..] == OnlyTicks(n - 1);
      if t.online {
        SilenceIsExact(t, n - 1);
      } else {
        assert Patience(s) == 1;
        NoTicksOpen(n - 1);
        QuietAfterwards(t, OnlyTicks(n - 1));
      }
    }
  }

  lemma {:induction false} NoTicksOpen(n: nat)
    ensures Opened(OnlyTicks(n)) == 0 && Ticks(OnlyTicks(n)) == n
  {
    if n > 0 {
      NoTicksOpen(n - 1);
      assert OnlyTicks(n)[1..] == OnlyTicks(n - 1);
    }
  }

  /** The tick at which OnlineCheckFunc looks for a confirmation. */
  predicate Checks(s: Line, e: Event) {
    e.Tick? && s.online && s.timer1 >= 25
  }

  /** An answer or a confirmation that is taken. */
  predicate Hears(s: Line, e: Event) {
    Opens(e) || (e.CallConfirm? && Confirms(s, e.ask))
  }

  function HeardAfter(s: Line, e: Event, heard: bool): bool {
    if Checks(s, e) then false else heard || Hears(s, e)
  }

  /** At every check that finds the call live, the peer has been heard since the
      check before. heard: it has been, up to here. */
  predicate HeardAtChecks(s: Line, es: seq<Event>, heard: bool)
    decreases |es|
  {
    es == [] || (
      && (Checks(s, es[0]) && Live(s.status) ==> heard)
      && HeardAtChecks(Next(s, es[0]), es[1..], HeardAfter(s, es[0], heard)))
  }

  lemma CheckStep(s: Line, e: Event, heard: bool)
    requires s.online ==> heard == s.confirm
    ensures Next(s, e).online ==> HeardAfter(s, e, heard) == Next(s, e).confirm
    ensures e.Tick? ==> (Callback(CB_TALK_STOP, CB_ST_NULL) in TickEffects(s) <==> Checks(s, e) && Live(s.status) && !heard)
  {
    var sent := TickEndsOnce(s);
  }

  /** OnlineCheckFunc ends no call of a run if and only if the peer is heard in
      every window between two checks. */
  lemma {:induction false} AttendedIsKept(s: Line, es: seq<Event>, heard: bool)
    requires s.online ==> heard == s.confirm
    ensures HeardAtChecks(s, es, heard) <==> Callback(CB_TALK_STOP, CB_ST_NULL) !in TimerEffects(s, es)
    decreases |es|
  {
    if es != [] {
      hide Next, TickEffects, HeardAfter;
      CheckStep(s, es[0], heard);
      AttendedIsKept(Next(s, es[0]), es[1..], HeardAfter(s, es[0], heard));
    }
  }

  /** gap: ticks since the peer was last heard. Before every tick of the run it is
      at most 24. */
  predicate Attended(s: Line, es: seq<Event>, gap: nat)
    decreases |es|
  {
    es == [] || (
      && (es[0].Tick? && s.online ==> gap <= 24)
      && Attended(Next(s, es[0]), es[1..], if es[0].Tick? then gap + 1 else if Hears(s, es[0]) then 0 else gap))
  }

  /** A peer heard from at least every 24 ticks is heard in every window. */
  lemma {:induction false} OftenIsEnough(s: Line, es: seq<Event>, gap: nat, heard: bool)
    requires InCycle(s) && Attended(s, es, gap) && (s.online && !heard ==> s.timer1 <= gap)
    ensures HeardAtChecks(s, es, heard)
    decreases |es|
  {
    if es != [] {
      CycleStays(s, es[0]);
      OftenIsEnough(Next(s, es[0]), es[1..], if es[0].Tick? then gap + 1 else if Hears(s, es[0]) then 0 else gap,
                    HeardAfter(s, es[0], heard));
    }
  }

  // ------------------------------------------------------------ how long a call lasts

  /** Steps that neither restart the clock nor end the call by themselves. */
  predicate Steady(e: Event, limit: int) {
    e.Tick? || e.CallConfirm? || (e.SetStatus? && LimitOf(e.status).Some? && LimitOf(e.status).value.0 <= limit)
  }

  predicate AllSteady(es: seq<Event>, limit: int) {
    forall e :: e in es ==> Steady(e, limit)
  }

  /** While the line is up TimeOut counts the ticks, and it is up no longer than
      two ticks past the largest limit its statuses stand under. */
  lemma {:induction false} ClockRuns(s: Line, es: seq<Event>, limit: int)
    requires limit in {CALLTIMEOUT, TALKTIMEOUT} && AllSteady(es, limit)
    requires s.online && LimitOf(s.status).Some? && LimitOf(s.status).value.0 <= limit && 0 <= s.timeOut <= limit + 2
    ensures After(s, es).online ==> After(s, es).timeOut == s.timeOut + Ticks(es) <= limit + 2
    decreases |es|
  {
    if es != [] {
      var t := Next(s, es[0]);
      assert Steady(es[0], limit);
      if t.online {
        ClockRuns(t, es[1..], limit);
      } else {
        StaysDown(t, es[1..], limit);
      }
    }
  }

  lemma {:induction false} StaysDown(s: Line, es: seq<Event>, limit: int)
    requires !s.online && AllSteady(es, limit)
    ensures !After(s, es).online
    decreases |es|
  {
    if es != [] {
      assert Steady(es[0], limit);
      StaysDown(Next(s, es[0]), es[1..], limit);
    }
  }

  lemma SteadyIsLively(es: seq<Event>, limit: int)
    requires AllSteady(es, limit)
    ensures AllLively(es)
  {
    forall e | e in es
      ensures Lively(e)
    {
      assert Steady(e, limit);
    }
  }

  lemma OverTheLimit(s: Line, es: seq<Event>, limit: int)
    requires limit in {CALLTIMEOUT, TALKTIMEOUT} && AllSteady(es, limit) && Ticks(es) > limit + 2
    requires s.online && s.timeOut == 0 && LimitOf(s.status).Some? && LimitOf(s.status).value.0 <= limit
    ensures !After(s, es).online && TornDown(s, es) && Reports(Effects(s, es)) == 1
  {
    ClockRuns(s, es, limit);
    SteadyIsLively(es, limit);
    DownMeansTornDown(s, es);
    TornDownOnce(s, es);
  }

  /** A call whose clock is not restarted has been torn down by tick 3603 whatever
      live statuses it goes through, and by tick 503 if it never gets to talking. */
  lemma SessionBound(s: Line, es: seq<Event>)
    requires s.online && s.timeOut == 0 && Live(s.status)
    ensures AllSteady(es, TALKTIMEOUT) && Ticks(es) >= 3603
            ==> !After(s, es).online && TornDown(s, es) && Reports(Effects(s, es)) == 1
    ensures s.status <= 2 && AllSteady(es, CALLTIMEOUT) && Ticks(es) >= 503
            ==> !After(s, es).online && TornDown(s, es) && Reports(Effects(s, es)) == 1
  {
    if AllSteady(es, TALKTIMEOUT) && Ticks(es) >= 3603 {
      OverTheLimit(s, es, TALKTIMEOUT);
    }
    if s.status <= 2 && AllSteady(es, CALLTIMEOUT) && Ticks(es) >= 503 {
      OverTheLimit(s, es, CALLTIMEOUT);
    }
  }

  /** The ticks that can still leave the line up under the receivers' own rules:
      a start of talking restarts the clock once, and a status cleared by another
      thread leaves supervision to the confirmation check. */
  function Budget(s: Line): int {
    if s.status == CB_ST_CALLING then (502 - s.timeOut) + 3602 + 50
    else if s.status == CB_ST_CALLED then (502 - s.timeOut) + 50
    else if s.status == CB_ST_TALKING || s.status == CB_ST_TALKED then (3602 - s.timeOut) + 50
    else Patience(s) - 1
  }

  predicate InBudget(s: Line) {
    InCycle(s) && 0 <= s.timeOut && (LimitOf(s.status).Some? ==> s.timeOut <= LimitOf(s.status).value.0 + 2)
  }

  predicate Unopened(es: seq<Event>) {
    forall e :: e in es ==> !Opens(e) && !e.SetStatus?
  }

  lemma BudgetShrinks(s: Line, e: Event)
    requires InBudget(s) && !Opens(e) && !e.SetStatus?
    ensures var t := Next(s, e);
            t.online ==> s.online && InBudget(t) && Budget(t) + (if e.Tick? then 1 else 0) <= Budget(s)
  {
  }

  lemma {:induction false} BudgetBound(s: Line, es: seq<Event>)
    requires InBudget(s) && s.online && Unopened(es)
    ensures After(s, es).online ==> InBudget(After(s, es)) && Budget(After(s, es)) + Ticks(es) <= Budget(s)
    decreases |es|
  {
    if es != [] {
      var t := Next(s, es[0]);
      BudgetShrinks(s, es[0]);
      if t.online {
        BudgetBound(t, es[1..]);
      } else {
        DownStaysDown(t, es[1..]);
      }
    }
  }

  lemma {:induction false} DownStaysDown(s: Line, es: seq<Event>)
    requires !s.online && Unopened(es)
    ensures !After(s, es).online
    decreases |es|
  {
    if es != [] {
      OnlyAnswersOpen(s, es[0]);
      DownStaysDown(Next(s, es[0]), es[1..]);
    }
  }

  lemma NotYet(s: Line, e: Event)
    requires 0 <= s.timeOut
    ensures 0 <= Next(s, e).timeOut <= s.timeOut + Bit(e.Tick?)
    ensures Callback(CB_CALL_TIMEOUT, CB_ST_NULL) in StepEffects(s, e) ==> e.Tick? && s.timeOut >= 502
    ensures Callback(CB_TALK_TIMEOUT, CB_ST_NULL) in StepEffects(s, e) ==> e.Tick? && s.timeOut >= 3602
  {
    var sent := TickEndsOnce(s);
  }

  /** No duration limit strikes early: in any run at all, not before tick 503 and
      tick 3603 of the clock. */
  lemma {:induction false} NotBeforeTheLimit(s: Line, es: seq<Event>)
    requires 0 <= s.timeOut
    ensures s.timeOut + Ticks(es) <= 502 ==> Callback(CB_CALL_TIMEOUT, CB_ST_NULL) !in Effects(s, es)
    ensures s.timeOut + Ticks(es) <= 3602 ==> Callback(CB_TALK_TIMEOUT, CB_ST_NULL) !in Effects(s, es)
    decreases |es|
  {
    if es != [] {
      hide Next, StepEffects;
      NotYet(s, es[0]);
      NotBeforeTheLimit(Next(s, es[0]), es[1..]);
    }
  }
}
