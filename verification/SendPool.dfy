/** The pool of request packets awaiting an answer: start_call, stop_talk, find_ip. */
module SendPool {
  import opened Bytes
  import opened TalkPacket
  import opened Fragments
  import opened ControlPackets

  const UDPSENDMAX: nat := 50
  const DIRECTCALLTIME: nat := 200
  const BUF_SIZE: nat := 1500

  /** struct Multi_Udp_Buff1 without socket, port and host name. */
  datatype Slot = Slot(
    isValid: bool, sendNum: nat, currOrder: nat, delayTime: nat, sendDelayTime: nat, nlength: nat, buf: seq<byte>)

  /** The slot a scan from 0 takes: the first free one, or none. */
  function FirstFree(slots: seq<Slot>): (i: nat)
    ensures i <= |slots|
    ensures i < |slots| ==> !slots[i].isValid
    ensures forall k :: 0 <= k < i ==> slots[k].isValid
  {
    if slots == [] || !slots[0].isValid then 0 else 1 + FirstFree(slots[1..])
  }

  lemma FirstFreeIs(slots: seq<Slot>, i: nat)
    requires i <= |slots| && (i < |slots| ==> !slots[i].isValid)
    requires forall k :: 0 <= k < i ==> slots[k].isValid
    ensures FirstFree(slots) == i
  {
    var f := FirstFree(slots);
    assert f == |slots| || !slots[f].isValid;
    assert i == |slots| || !slots[i].isValid;
  }

  /** s after a request has been put in it. */
  function Claimed(s: Slot, r: Request): Slot
    requires r.Sized() && |s.buf| == BUF_SIZE
  {
    StoresFit(r, BUF_SIZE);
    var order: nat := if r.Call? then s.currOrder else if r.Force? then 0 else VIDEOTALK;
    Slot(true, 5, order, if r.Force? then 100 else DIRECTCALLTIME, 0, r.Length(), Apply(s.buf, Stores(r)))
  }

  /** What a pool holds after a request was put in its first free slot. */
  function Posted(slots: seq<Slot>, r: Request): seq<Slot>
    requires r.Sized() && forall k :: 0 <= k < |slots| ==> |slots[k].buf| == BUF_SIZE
  {
    var i := FirstFree(slots);
    if i < |slots| then slots[i := Claimed(slots[i], r)] else slots
  }

  /** A posted slot holds the packet, whatever was in the slot before, and no
      slot that was valid has changed. */
  lemma PostedHolds(slots: seq<Slot>, r: Request)
    requires r.Sized() && forall k :: 0 <= k < |slots| ==> |slots[k].buf| == BUF_SIZE
    ensures var i, after := FirstFree(slots), Posted(slots, r);
            && |after| == |slots|
            && (i < |slots| ==>
                  && after[i].isValid && after[i].buf[..after[i].nlength] == Encode(r)
                  && after[i].nlength == (match r case Call(_) => 62 case Find(_, _, _) => 56 case _ => 57)
                  && after[i].sendNum == 5 && after[i].sendDelayTime == 0 && after[i].delayTime == (if r.Force? then 100 else 200)
                  && after[i].currOrder == (match r case Call(_) => slots[i].currOrder case Force(_) => 0 case _ => 150))
            && (forall k :: 0 <= k < |slots| && k != i ==> after[k] == slots[k])
            && (forall k :: 0 <= k < |slots| && slots[k].isValid ==> after[k] == slots[k])
  {
    var i := FirstFree(slots);
    if i < |slots| {
      BuiltPacket(slots[i].buf, r);
    }
  }

  /** A door station's address with the four digits of a room in it. */
  function Dial(address: seq<byte>, room: seq<byte>): (a: seq<byte>)
    requires |address| == 20 && |room| == 4
    ensures |a| == 20
  {
    Splice(address[0 := 'S' as int], 7, room)
  }

  /** 'S' in front, the room at 7 to 10, everything else the station's own. */
  lemma DialIs(address: seq<byte>, room: seq<byte>, i: nat)
    requires |address| == 20 && |room| == 4 && i < 20
    ensures Dial(address, room)[i] == if i == 0 then 83 else if 7 <= i <= 10 then room[i - 7] else address[i]
  {
  }

  class Pool {
    const dev: Device
    const slots: array<Slot>
    var denIP: seq<byte>   // remote_info.DenIP

    ghost predicate Valid()
      reads this, dev, slots
    {
      && dev.Valid() && slots.Length == UDPSENDMAX
      && forall k :: 0 <= k < slots.Length ==> |slots[k].buf| == BUF_SIZE
    }

    /** The pool as the loader leaves it, all zero. */
    constructor (dev: Device)
      requires dev.Valid()
      ensures Valid() && this.dev == dev && fresh(slots)
      ensures forall k :: 0 <= k < slots.Length ==> !slots[k].isValid
    {
      this.dev := dev;
      denIP := NULL_IP;
      slots := new Slot[UDPSENDMAX](_ => Slot(false, 0, 0, 0, 0, 0, seq(BUF_SIZE, _ => 0)));
    }

    /** The memcpy calls and byte stores into one slot's buffer. */
    method Write(i: nat, ws: seq<Store>)
      requires Valid() && i < UDPSENDMAX && Inside(ws, BUF_SIZE)
      modifies slots
      ensures Valid() && slots[..] == old(slots[..])[i := old(slots[i]).(buf := Apply(old(slots[i]).buf, ws))]
    {
      ghost var was := slots[i];
      for k := 0 to |ws|
        invariant forall n :: 0 <= n < slots.Length && n != i ==> slots[n] == old(slots[n])
        invariant Inside(ws[..k], BUF_SIZE) && slots[i] == was.(buf := Apply(was.buf, ws[..k]))
      {
        assert ws[..k + 1][..k] == ws[..k];
        slots[i] := slots[i].(buf := Splice(slots[i].buf, ws[k].at, ws[k].bytes));
      }
      assert ws[..|ws|] == ws;
    }

    /** The body of a claim, field by field; isValid is set last. */
    method Claim(i: nat, r: Request) returns (sent: seq<byte>)
      requires Valid() && i < UDPSENDMAX && r.Sized()
      modifies slots
      ensures Valid() && slots[..] == old(slots[..])[i := Claimed(old(slots[i]), r)]
      ensures sent == Encode(r)
    {
      hide Apply, Stores, Encode;
      StoresFit(r, BUF_SIZE);
      BuiltPacket(slots[i].buf, r);
      slots[i] := slots[i].(sendNum := 5);
      if r.Force? {
        slots[i] := slots[i].(currOrder := 0);
      } else if !r.Call? {
        slots[i] := slots[i].(currOrder := VIDEOTALK);
      }
      Write(i, Stores(r));
      slots[i] := slots[i].(nlength := r.Length());
      slots[i] := slots[i].(delayTime := if r.Force? then 100 else DIRECTCALLTIME);
      slots[i] := slots[i].(sendDelayTime := 0);
      slots[i] := slots[i].(isValid := true);
      sent := slots[i].buf[..slots[i].nlength];
    }

    /** The scan for a free slot; the whole of it runs under the lock. */
    method Post(r: Request) returns (sent: Option<seq<byte>>)
      requires Valid() && r.Sized()
      modifies slots
      ensures Valid() && slots[..] == Posted(old(slots[..]), r)
      ensures sent == if FirstFree(old(slots[..])) < UDPSENDMAX then Some(Encode(r)) else None
    {
      for i := 0 to UDPSENDMAX
        invariant slots[..] == old(slots[..])
        invariant forall k :: 0 <= k < i ==> slots[k].isValid
      {
        if !slots[i].isValid {
          FirstFreeIs(slots[..], i);
          var packet := Claim(i, r);
          return Some(packet);
        }
      }
      FirstFreeIs(slots[..], UDPSENDMAX);
      sent := None;
    }

    method StartCall(ip: seq<byte>, addr: seq<byte>, uFlag: int) returns (sent: Option<seq<byte>>)
      requires Valid() && |ip| == 4 && |addr| >= 4
      modifies slots, `denIP, dev`peerIP, dev`peerAddr
      ensures Valid()
      ensures if uFlag == 2 && dev.status == 0 then
                && dev.peerIP == denIP == ip && dev.peerAddr == Dial(dev.address, addr[..4]) + old(dev.peerAddr)[20..]
                && slots[..] == Posted(old(slots[..]), Call(dev.Me()))
                && (sent == if FirstFree(old(slots[..])) < UDPSENDMAX then Some(Encode(Call(dev.Me()))) else None)
              else
                unchanged(this, dev, slots) && sent == None
    {
      sent := None;
      if uFlag == 2 {
        if dev.status == 0 {
          dev.peerIP := ip;
          denIP := dev.peerIP;
          dev.peerAddr := dev.address + dev.peerAddr[20..];
          dev.peerAddr := dev.peerAddr[0 := 'S' as int];
          dev.peerAddr := dev.peerAddr[7 := addr[0]][8 := addr[1]][9 := addr[2]][10 := addr[3]];
          assert dev.peerAddr == Dial(dev.address, addr[..4]) + old(dev.peerAddr)[20..];
          sent := Post(Call(dev.Me()));
        }
      }
    }

    method StopTalk() returns (sent: Option<seq<byte>>)
      requires Valid()
      modifies slots
      ensures Valid()
      ensures if dev.status > 0 then
                && slots[..] == Posted(old(slots[..]), End(dev.Me()))
                && (sent == if FirstFree(old(slots[..])) < UDPSENDMAX then Some(Encode(End(dev.Me()))) else None)
              else
                unchanged(slots) && sent == None
    {
      sent := None;
      if dev.status > 0 {
        sent := Post(End(dev.Me()));
      }
    }

    /** addr points at 20 readable bytes, as the copy into remote_info needs. */
    method FindIp(addr: Option<seq<byte>>, uFlag: int) returns (sent: Option<seq<byte>>)
      requires Valid() && (addr.Some? ==> |addr.value| >= 20)
      modifies slots, dev`peerIP, dev`peerAddr
      ensures Valid()
      ensures if addr.Some? && dev.status == 0 && uFlag == 0 then
                var r := Find(dev.address, dev.locate_ip, Dial(dev.address, addr.value[..4]));
                && slots[..] == Posted(old(slots[..]), r)
                && if FirstFree(old(slots[..])) < UDPSENDMAX then
                     && sent == Some(Encode(r)) && dev.peerIP == NULL_IP
                     && dev.peerAddr == addr.value[..20] + old(dev.peerAddr)[20..]
                   else
                     unchanged(dev) && sent == None
              else
                unchanged(dev, slots) && sent == None
    {
      sent := None;
      if addr.Some? {
        if dev.status == 0 && uFlag == 0 {
          var remoteAddr := Splice(dev.address[0 := 'S' as int], 7, addr.value[..4]);
          sent := Post(Find(dev.address, dev.locate_ip, remoteAddr));
          if sent.Some? {
            dev.peerAddr := seq(20, _ => '0' as int) + dev.peerAddr[20..];
            dev.peerAddr := addr.value[..20] + dev.peerAddr[20..];
            dev.peerIP := NULL_IP;
          }
        }
      }
    }
  }
}
