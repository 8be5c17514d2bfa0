/**
 * Call supervision: the state that the timer thread, the receiver threads and the
 * send thread share, and what one step of each does to it.
 */
module CallState {
  import opened Bytes
  import opened TalkPacket
  import opened ControlPackets

  const CALLCONFIRM: byte := 9

  const TIMERPERSEC: int := 2
  const INTRTIME: int := 50
  const CALLTIMEOUT: int := 25 * (1000 / INTRTIME)
  const TALKTIMEOUT: int := 180 * (1000 / INTRTIME)

  const CB_ST_NULL: int := 0
  const CB_ST_CALLING: int := 1
  const CB_ST_CALLED: int := 2
  const CB_ST_TALKING: int := 5
  const CB_ST_TALKED: int := 6

  datatype Opt = CB_TALK_STOP | CB_CALL_TIMEOUT | CB_TALK_TIMEOUT

  /** What a step does to the outside: the sequence field of a CALLCONFIRM packet,
      a call of stop_talk with the status it finds, the report that a call ended. */
  datatype Effect =
    | Confirm(field: seq<byte>)
    | StopTalk(status: int)
    | Callback(opt: Opt, status: int)

  /** struct Local1 as far as supervision uses it. The two flags only ever hold 0
      or 1. */
  datatype Line = Line(
    status: int, confirm: bool, timer1: int, online: bool, onlineNum: int, timeOut: int)

  predicate Live(status: int) {
    status in {CB_ST_CALLING, CB_ST_CALLED, CB_ST_TALKING, CB_ST_TALKED}
  }

  predicate Called(status: int) {
    status == CB_ST_CALLED || status == CB_ST_TALKED
  }

  // ------------------------------------------------------------------ timer

  function OnlineCheck(s: Line): Line {
    var t :=
      if s.timer1 > TIMERPERSEC * 12 then
        (if !s.confirm then s.(status := if Live(s.status) then CB_ST_NULL else s.status, online := false)
         else s.(confirm := false)).(timer1 := 0)
      else if s.timer1 % (TIMERPERSEC * 2) == 0 && Called(s.status) then s.(onlineNum := s.onlineNum + 1)
      else s;
    t.(timer1 := t.timer1 + 1)
  }

  function OnlineCheckEffects(s: Line): seq<Effect> {
    if s.timer1 > TIMERPERSEC * 12 then
      if !s.confirm && Live(s.status) then [StopTalk(s.status), Callback(CB_TALK_STOP, CB_ST_NULL)] else []
    else if s.timer1 % (TIMERPERSEC * 2) == 0 && Called(s.status) then [Confirm(Be32(s.onlineNum))]
    else []
  }

  /** The duration limit a status stands under, if any. */
  function LimitOf(status: int): Option<(int, Opt)> {
    if status == 1 || status == 2 then Some((CALLTIMEOUT, CB_CALL_TIMEOUT))
    else if status == 5 || status == 6 then Some((TALKTIMEOUT, CB_TALK_TIMEOUT))
    else None
  }

  predicate TimedOut(s: Line) {
    s.timeOut % TIMERPERSEC == 0 && LimitOf(s.status).Some? && s.timeOut > LimitOf(s.status).value.0
  }

  function TalkCtrl(s: Line): Line {
    (if TimedOut(s) then s.(status := CB_ST_NULL, online := false) else s).(timeOut := s.timeOut + 1)
  }

  function TalkCtrlEffects(s: Line): seq<Effect> {
    if TimedOut(s) then [StopTalk(s.status), Callback(LimitOf(s.status).value.1, CB_ST_NULL)] else []
  }

  function TickLine(s: Line): Line {
    if s.online then TalkCtrl(OnlineCheck(s)) else s
  }

  function TickEffects(s: Line): seq<Effect> {
    if s.online then OnlineCheckEffects(s) + TalkCtrlEffects(OnlineCheck(s)) else []
  }

  // ------------------------------------------------------------ other threads

  /** A timer tick, or what a packet or the send thread does to the shared state.
      ask: byte 7 of the packet is ASK, otherwise REPLY. slot: the send pool holds
      the request the packet answers. SetStatus is the exported set_device_status. */
  datatype Event =
    | Tick
    | CallAnswer(slot: bool)
    | CallStart(ask: bool)
    | CallConfirm(ask: bool)
    | CallEnd(ask: bool, slot: bool)
    | LineUse(slot: bool, direct: bool)
    | NsReply(found: bool)
    | CallEndUnanswered
    | SetStatus(status: int)

  /** TalkEnd_ClearStatus. */
  function Cleared(s: Line): Line {
    s.(status := CB_ST_NULL, online := false, confirm := false)
  }

  predicate Confirms(s: Line, ask: bool) {
    if ask then s.status == CB_ST_CALLING || s.status == CB_ST_TALKING else Called(s.status)
  }

  function Next(s: Line, e: Event): Line {
    match e
    case Tick => TickLine(s)
    case CallAnswer(slot) =>
      if slot then Line(CB_ST_CALLING, true, 0, true, 0, 0) else s
    case CallStart(ask) =>
      if s.status == CB_ST_CALLING && ask then s.(status := CB_ST_TALKING, timeOut := 0) else s
    case CallConfirm(ask) =>
      if Confirms(s, ask) then s.(confirm := true) else s
    case CallEnd(ask, slot) =>
      if s.status == CB_ST_CALLING || s.status == CB_ST_TALKING then
        if ask || slot then Cleared(s) else s.(online := false, confirm := false)
      else s
    case LineUse(slot, direct) =>
      if slot && direct then s.(status := CB_ST_NULL) else s
    case NsReply(found) =>
      if found then s.(status := CB_ST_NULL) else s
    case CallEndUnanswered => Cleared(s)
    case SetStatus(status) => s.(status := status)
  }

  function After(s: Line, es: seq<Event>): Line
    decreases |es|
  {
    if es == [] then s else After(Next(s, es[0]), es[1..])
  }

  /** The steps of other threads that go through TalkEnd_ClearStatus. */
  predicate Clears(s: Line, e: Event) {
    || e.CallEndUnanswered?
    || (e.CallEnd? && (s.status == CB_ST_CALLING || s.status == CB_ST_TALKING) && (e.ask || e.slot))
  }

  function StepEffects(s: Line, e: Event): seq<Effect> {
    if e.Tick? then TickEffects(s) else if Clears(s, e) then [Callback(CB_TALK_STOP, CB_ST_NULL)] else []
  }

  /** What all threads do to the outside over a run. */
  function Effects(s: Line, es: seq<Event>): seq<Effect>
    decreases |es|
  {
    if es == [] then [] else StepEffects(s, es[0]) + Effects(Next(s, es[0]), es[1..])
  }

  /** The part of it that is the timer thread's. */
  function TimerEffects(s: Line, es: seq<Event>): seq<Effect>
    decreases |es|
  {
    if es == [] then []
    else (if es[0].Tick? then TickEffects(s) else []) + TimerEffects(Next(s, es[0]), es[1..])
  }

  function Ticks(es: seq<Event>): nat {
    if es == [] then 0 else (if es[0].Tick? then 1 else 0) + Ticks(es[1..])
  }

  // -------------------------------------------------------- the keep-alive packet

  /** CALLCONFIRM as far as it is written: both parties and the sequence field. */
  function ConfirmPacket(id: Identity, field: seq<byte>): (b: seq<byte>)
    requires id.Sized() && |field| == 4
    ensures |b| == 61
  {
    PACKAGE_HEAD + [VIDEOTALK, ASK, CALLCONFIRM] + IdImage(id) + field
  }

  /** Every CALLCONFIRM names both parties and its number, and is no request. */
  lemma ConfirmReads(id: Identity, n: int, b: seq<byte>)
    requires id.Sized() && |b| == 62 && b[..61] == ConfirmPacket(id, Be32(n))
    ensures b[..6] == PACKAGE_HEAD && b[8] == CALLCONFIRM && ParseId(b[9..57]) == id
    ensures b[..9] == [81, 73, 85, 83, 72, 73, 150, 1, 9]
    ensures b[57] == n / 0x100_0000 % 0x100 && b[58] == n / 0x1_0000 % 0x100 && b[59] == n / 0x100 % 0x100 && b[60] == n % 0x100
    ensures FromBe32(b[57..61]) == Trunc32(n) && Decode(b) == None
  {
    var p := ConfirmPacket(id, Be32(n));
    assert b[..9] == p[..9];
    assert b[57] == p[57] && b[58] == p[58] && b[59] == p[59] && b[60] == p[60];
    Be32Bytes(n);
    assert b[..6] == p[..6] == PACKAGE_HEAD && b[8] == p[8];
    assert b[9..57] == p[9..57] == IdImage(id);
    assert b[57..61] == p[57..] == Be32(n);
    IdRoundTrip(id);
    Be32Decodes(n);
  }

  /** The datagrams of a tick: one, if its first effect is a confirmation. */
  predicate SentFor(fx: seq<Effect>, id: Identity, sent: seq<seq<byte>>)
    requires id.Sized()
  {
    if fx != [] && fx[0].Confirm? then
      |fx[0].field| == 4 && |sent| == 1 && |sent[0]| == 62 && sent[0][..61] == ConfirmPacket(id, fx[0].field)
    else
      sent == []
  }

  lemma SpliceExtends(buf: seq<byte>, at: nat, src: seq<byte>)
    requires at + |src| <= |buf|
    ensures Splice(buf, at, src)[..at + |src|] == buf[..at] + src
  {
  }

  /** memcpy behind what has been written of a buffer. */
  method Append(buf: array<byte>, at: nat, src: seq<byte>)
    requires at + |src| <= buf.Length
    modifies buf
    ensures buf[..at + |src|] == old(buf[..at]) + src
  {
    SpliceExtends(buf[..], at, src);
    ghost var was := buf[..];
    CopyInto(buf, at, src);
    assert was[..at] == old(buf[..at]);
    assert buf[..at + |src|] == buf[..][..at + |src|];
  }

  /** The packet on the stack of OnlineCheckFunc; byte 61 goes out as it was. */
  method BuildConfirm(id: Identity, num: int) returns (b: seq<byte>)
    requires id.Sized()
    ensures |b| == 62 && b[..61] == ConfirmPacket(id, Be32(num))
  {
    var send_b := new byte[1520];
    Append(send_b, 0, PACKAGE_HEAD);
    assert send_b[..0] + PACKAGE_HEAD == PACKAGE_HEAD;
    Append(send_b, 6, [VIDEOTALK]);
    Append(send_b, 7, [ASK]);
    Append(send_b, 8, [CALLCONFIRM]);
    Append(send_b, 9, id.hostAddr);
    Append(send_b, 29, id.hostIP);
    Append(send_b, 33, id.assiAddr);
    Append(send_b, 53, id.assiIP);
    Flatten(PACKAGE_HEAD, VIDEOTALK, ASK, CALLCONFIRM, id);
    var field := Be32(num);
    Append(send_b, 57, field);
    b := send_b[..62];
    assert b[..61] == send_b[..61];
  }

  /** The line as the timer thread's functions update it, field by field. */
  class Supervisor {
    var Status: int
    var CallConfirmFlag: bool
    var Timer1Num: int
    var OnlineFlag: bool
    var OnlineNum: int
    var TimeOut: int
    var TalkTimeOut: int

    function State(): Line
      reads this
    {
      Line(Status, CallConfirmFlag, Timer1Num, OnlineFlag, OnlineNum, TimeOut)
    }

    constructor ()
      ensures State() == Line(CB_ST_NULL, false, 0, false, 0, 0)
    {
      Status, CallConfirmFlag, Timer1Num, OnlineFlag, OnlineNum := CB_ST_NULL, false, 0, false, 0;
      TimeOut, TalkTimeOut := 0, TALKTIMEOUT;
    }

    /** id: the two parties as local_config and remote_info have them. */
    method OnlineCheckFunc(id: Identity) returns (fx: seq<Effect>, sent: seq<seq<byte>>)
      requires id.Sized()
      modifies this
      ensures State() == OnlineCheck(old(State())) && fx == OnlineCheckEffects(old(State()))
      ensures SentFor(fx, id, sent)
    {
      fx, sent := [], [];
      var status := Status;
      if Timer1Num > TIMERPERSEC * 12 {
        if !CallConfirmFlag {
          if status == CB_ST_CALLING || status == CB_ST_CALLED || status == CB_ST_TALKING || status == CB_ST_TALKED {
            fx := fx + [StopTalk(Status)];
            status := CB_ST_NULL;
            Status := status;
            fx := fx + [Callback(CB_TALK_STOP, status)];
          }
          OnlineFlag := false;
        } else {
          CallConfirmFlag := false;
        }
        Timer1Num := 0;
      } else if Timer1Num % (TIMERPERSEC * 2) == 0 {
        if status == CB_ST_CALLED || status == CB_ST_TALKED {
          var send_b := BuildConfirm(id, OnlineNum);
          fx, sent := fx + [Confirm(Be32(OnlineNum))], [send_b];
          OnlineNum := OnlineNum + 1;
        }
      }
      Timer1Num := Timer1Num + 1;
    }

    method TalkCtrlFunc() returns (fx: seq<Effect>)
      modifies this
      ensures State() == TalkCtrl(old(State())) && fx == TalkCtrlEffects(old(State()))
    {
      fx := [];
      if TimeOut % TIMERPERSEC == 0 {
        if Status == 1 || Status == 2 {
          var CallTimeOut := CALLTIMEOUT;
          if TimeOut > CallTimeOut {
            fx := fx + [StopTalk(Status)];
            Status := CB_ST_NULL;
            fx := fx + [Callback(CB_CALL_TIMEOUT, Status)];
            OnlineFlag := false;
          }
        } else if Status == 5 || Status == 6 {
          TalkTimeOut := TALKTIMEOUT;
          if TimeOut > TalkTimeOut {
            fx := fx + [StopTalk(Status)];
            Status := CB_ST_NULL;
            fx := fx + [Callback(CB_TALK_TIMEOUT, Status)];
            OnlineFlag := false;
          }
        }
      }
      TimeOut := TimeOut + 1;
    }

    /** One turn of timer_thread_task. */
    method TimerTick(id: Identity) returns (fx: seq<Effect>, sent: seq<seq<byte>>)
      requires id.Sized()
      modifies this
      ensures State() == TickLine(old(State())) && fx == TickEffects(old(State()))
      ensures SentFor(fx, id, sent)
    {
      fx, sent := [], [];
      if OnlineFlag {
        var fx1;
        fx1, sent := OnlineCheckFunc(id);
        var fx2 := TalkCtrlFunc();
        fx := fx1 + fx2;
      }
    }
  }
}
