/** The request packets that go through the send pool, and their reader. */
module ControlPackets {
  import opened Bytes
  import opened TalkPacket

  const NSORDER: byte := 154
  const ASK: byte := 1
  const CALL: byte := 1
  const FORCEIFRAME: byte := 11
  const CALLEND: byte := 30
  const CODEC_H264: byte := 1

  const NULL_IP: seq<byte> := [0, 0, 0, 0]

  /** CALL, CALLEND and FORCEIFRAME name both parties; NSORDER asks who has an
      address. FORCEIFRAME is as ForceIFrame_Func writes it in a call. */
  datatype Request =
    | Call(id: Identity)
    | End(id: Identity)
    | Force(id: Identity)
    | Find(host: seq<byte>, hostIP: seq<byte>, wanted: seq<byte>)
  {
    predicate Sized() {
      if Find? then |host| == 20 && |hostIP| == 4 && |wanted| == 20 else id.Sized()
    }

    function Length(): nat {
      if Call? then 62 else if Find? then 56 else 57
    }
  }

  /** One memcpy or byte store into a slot's buffer. */
  datatype Store = Store(at: nat, bytes: seq<byte>)

  /** The stores of start_call, stop_talk, ForceIFrame_Func and find_ip, in order. */
  function Stores(r: Request): (ws: seq<Store>)
    requires r.Sized()
  {
    match r
    case Call(id) =>
      [Store(0, PACKAGE_HEAD), Store(6, [VIDEOTALK]), Store(7, [ASK]), Store(8, [CALL]),
       Store(9, id.hostAddr), Store(29, id.hostIP), Store(33, id.assiAddr), Store(53, id.assiIP),
       Store(57, [CODEC_H264]), Store(58, id.assiIP)]
    case End(id) =>
      [Store(0, PACKAGE_HEAD), Store(6, [VIDEOTALK]), Store(7, [ASK]), Store(8, [CALLEND]),
       Store(9, id.hostAddr), Store(29, id.hostIP), Store(33, id.assiAddr), Store(53, id.assiIP)]
    case Force(id) =>
      [Store(0, PACKAGE_HEAD), Store(6, [VIDEOTALK]), Store(7, [ASK]), Store(8, [FORCEIFRAME]),
       Store(9, id.hostAddr), Store(29, id.hostIP), Store(33, id.assiAddr), Store(53, id.assiIP)]
    case Find(host, hostIP, wanted) =>
      [Store(0, PACKAGE_HEAD), Store(6, [NSORDER]), Store(7, [ASK]),
       Store(8, host), Store(28, hostIP), Store(32, wanted), Store(52, NULL_IP)]
  }

  /** The packet, without reference to how it is written. */
  function Encode(r: Request): (b: seq<byte>)
    requires r.Sized()
    ensures |b| == r.Length()
  {
    match r
    case Call(id) => PACKAGE_HEAD + [VIDEOTALK, ASK, CALL] + IdImage(id) + [CODEC_H264] + id.assiIP
    case End(id) => PACKAGE_HEAD + [VIDEOTALK, ASK, CALLEND] + IdImage(id)
    case Force(id) => PACKAGE_HEAD + [VIDEOTALK, ASK, FORCEIFRAME] + IdImage(id)
    case Find(host, hostIP, wanted) => PACKAGE_HEAD + [NSORDER, ASK] + host + hostIP + wanted + NULL_IP
  }

  /** Bytes 6 to 8 decide the layout, the layout decides the length. */
  function Decode(b: seq<byte>): (r: Option<Request>)
    ensures r.Some? ==> r.value.Sized()
  {
    if |b| < 9 || b[..6] != PACKAGE_HEAD || b[7] != ASK then None
    else if b[6] == VIDEOTALK && b[8] == CALL then
      if |b| == 62 && b[57] == CODEC_H264 && b[58..] == b[53..57] then Some(Call(ParseId(b[9..57]))) else None
    else if b[6] == VIDEOTALK && b[8] == CALLEND then
      if |b| == 57 then Some(End(ParseId(b[9..]))) else None
    else if b[6] == VIDEOTALK && b[8] == FORCEIFRAME then
      if |b| == 57 then Some(Force(ParseId(b[9..]))) else None
    else if b[6] == NSORDER then
      if |b| == 56 && b[52..] == NULL_IP then Some(Find(b[8..28], b[28..32], b[32..52])) else None
    else None
  }

  /** One decoder inverts all the builders, for all addresses. */
  lemma DecodeEncode(r: Request)
    requires r.Sized()
    ensures Decode(Encode(r)) == Some(r)
  {
    var b := Encode(r);
    assert b[..6] == PACKAGE_HEAD && b[7] == ASK;
    match r
    case Call(id) =>
      assert b[6] == VIDEOTALK && b[8] == CALL && b[9..57] == IdImage(id) && b[57] == CODEC_H264;
      assert b[58..] == id.assiIP == IdImage(id)[44..] == b[53..57];
      IdRoundTrip(id);
    case End(id) =>
      assert b[6] == VIDEOTALK && b[8] == CALLEND && b[9..] == IdImage(id);
      IdRoundTrip(id);
    case Force(id) =>
      assert b[6] == VIDEOTALK && b[8] == FORCEIFRAME && b[9..] == IdImage(id);
      IdRoundTrip(id);
    case Find(host, hostIP, wanted) =>
      assert b[6] == NSORDER && b[8..28] == host && b[28..32] == hostIP && b[32..52] == wanted && b[52..] == NULL_IP;
  }

  /** Where the packets have what, in numbers. */
  lemma RequestBytes(r: Request)
    requires r.Sized()
    ensures var b := Encode(r);
            && b[..6] == [81, 73, 85, 83, 72, 73] && b[7] == 1
            && match r
               case Find(host, hostIP, wanted) =>
                 |b| == 56 && b[6] == 154 && b[8..28] == host && b[28..32] == hostIP && b[32..52] == wanted && b[52..56] == [0, 0, 0, 0]
               case _ =>
                 && |b| == (if r.Call? then 62 else 57) && b[6] == 150 && b[8] == (if r.Call? then 1 else if r.End? then 30 else 11)
                 && b[9..29] == r.id.hostAddr && b[29..33] == r.id.hostIP && b[33..53] == r.id.assiAddr && b[53..57] == r.id.assiIP
                 && (r.Call? ==> b[57] == 1 && b[58..62] == r.id.assiIP)
  {
    var b := Encode(r);
    if !r.Find? {
      var i := IdImage(r.id);
      assert i[..20] == r.id.hostAddr && i[20..24] == r.id.hostIP && i[24..44] == r.id.assiAddr && i[44..] == r.id.assiIP;
      assert b[9..29] == i[..20] && b[29..33] == i[20..24] && b[33..53] == i[24..44] && b[53..57] == i[44..];
    }
  }

  /** And only their packets are accepted. */
  lemma EncodeDecode(b: seq<byte>)
    requires Decode(b).Some?
    ensures Encode(Decode(b).value) == b
  {
    assert b[..9] == b[..6] + [b[6], b[7], b[8]];
    match Decode(b).value
    case Call(id) =>
      assert IdImage(id) == b[9..57];
      assert b == b[..9] + b[9..57] + [b[57]] + b[58..];
    case End(id) =>
      assert IdImage(id) == b[9..];
      assert b == b[..9] + b[9..];
    case Force(id) =>
      assert IdImage(id) == b[9..];
      assert b == b[..9] + b[9..];
    case Find(host, hostIP, wanted) =>
      assert b == b[..6] + [b[6], b[7]] + b[8..28] + b[28..32] + b[32..52] + b[52..];
  }

  // ----------------------------------------------------- stores into a buffer

  predicate Inside(ws: seq<Store>, size: nat) {
    forall k :: 0 <= k < |ws| ==> ws[k].at + |ws[k].bytes| <= size
  }

  function Apply(buf: seq<byte>, ws: seq<Store>): (r: seq<byte>)
    requires Inside(ws, |buf|)
    ensures |r| == |buf|
    decreases |ws|
  {
    if ws == [] then buf
    else
      var most := ws[..|ws| - 1];
      Splice(Apply(buf, most), ws[|ws| - 1].at, ws[|ws| - 1].bytes)
  }

  function Joined(ws: seq<Store>): seq<byte>
    decreases |ws|
  {
    if ws == [] then [] else Joined(ws[..|ws| - 1]) + ws[|ws| - 1].bytes
  }

  /** Each store begins where the one before it ended. */
  predicate Tile(ws: seq<Store>)
    decreases |ws|
  {
    ws == [] || (Tile(ws[..|ws| - 1]) && ws[|ws| - 1].at == |Joined(ws[..|ws| - 1])|)
  }

  /** Stores that tile leave no byte of the buffer's old contents in their range,
      and touch none behind it. */
  lemma {:induction false} TiledStores(buf: seq<byte>, ws: seq<Store>)
    requires Inside(ws, |buf|) && Tile(ws)
    ensures |Joined(ws)| <= |buf|
    ensures Apply(buf, ws) == Joined(ws) + buf[|Joined(ws)|..]
    decreases |ws|
  {
    if ws != [] {
      var most, w := ws[..|ws| - 1], ws[|ws| - 1];
      assert Inside(most, |buf|) by { assert forall k :: 0 <= k < |most| ==> most[k] == ws[k]; }
      TiledStores(buf, most);
      SpliceBehind(Joined(most), buf[|Joined(most)|..], w.bytes);
    }
  }

  /** A copy that begins where what is known of the buffer ends. */
  lemma SpliceBehind(known: seq<byte>, rest: seq<byte>, b: seq<byte>)
    requires |b| <= |rest|
    ensures Splice(known + rest, |known|, b) == known + b + rest[|b|..]
  {
  }

  lemma TakeBack<T>(a: seq<T>, x: T)
    ensures (a + [x])[..|a + [x]| - 1] == a && (a + [x])[|a + [x]| - 1] == x
  {
  }

  lemma OneMore(ws: seq<Store>, w: Store)
    requires Tile(ws) && w.at == |Joined(ws)|
    ensures Tile(ws + [w]) && Joined(ws + [w]) == Joined(ws) + w.bytes
  {
    TakeBack(ws, w);
  }

  lemma TwoMore(ws: seq<Store>, v: Store, w: Store)
    requires Tile(ws) && v.at == |Joined(ws)| && w.at == v.at + |v.bytes|
    ensures Tile(ws + [v, w]) && Joined(ws + [v, w]) == Joined(ws) + v.bytes + w.bytes
  {
    OneMore(ws, v);
    OneMore(ws + [v], w);
    assert ws + [v] + [w] == ws + [v, w];
  }

  lemma FourMore(ws: seq<Store>, t: Store, u: Store, v: Store, w: Store)
    requires Tile(ws) && t.at == |Joined(ws)| && u.at == t.at + |t.bytes| && v.at == u.at + |u.bytes| && w.at == v.at + |v.bytes|
    ensures Tile(ws + [t, u, v, w]) && Joined(ws + [t, u, v, w]) == Joined(ws) + t.bytes + u.bytes + v.bytes + w.bytes
  {
    TwoMore(ws, t, u);
    TwoMore(ws + [t, u], v, w);
    assert ws + [t, u] + [v, w] == ws + [t, u, v, w];
  }

  /** Both parties' addresses behind a nine-byte head. */
  lemma PartyStores(command: byte, id: Identity, ws: seq<Store>)
    requires id.Sized()
    requires ws == [Store(0, PACKAGE_HEAD), Store(6, [VIDEOTALK]), Store(7, [ASK]), Store(8, [command]),
                    Store(9, id.hostAddr), Store(29, id.hostIP), Store(33, id.assiAddr), Store(53, id.assiIP)]
    ensures Tile(ws) && Joined(ws) == PACKAGE_HEAD + [VIDEOTALK, ASK, command] + IdImage(id)
  {
    assert Joined([]) == [] && |PACKAGE_HEAD| == 6;
    FourMore([], ws[0], ws[1], ws[2], ws[3]);
    var first := [ws[0], ws[1], ws[2], ws[3]];
    assert [] + first == first;
    assert |Joined(first)| == 9;
    FourMore(first, ws[4], ws[5], ws[6], ws[7]);
    assert first + [ws[4], ws[5], ws[6], ws[7]] == ws;
    Flatten(PACKAGE_HEAD, VIDEOTALK, ASK, command, id);
  }

  lemma Flatten(head: seq<byte>, a: byte, b: byte, c: byte, id: Identity)
    requires id.Sized()
    ensures [] + head + [a] + [b] + [c] + id.hostAddr + id.hostIP + id.assiAddr + id.assiIP == head + [a, b, c] + IdImage(id)
  {
  }

  lemma QueryStores(r: Request)
    requires r.Sized() && r.Find?
    ensures Tile(Stores(r)) && Joined(Stores(r)) == Encode(r)
  {
    var ws := Stores(r);
    assert Joined([]) == [] && |PACKAGE_HEAD| == 6;
    FourMore([], ws[0], ws[1], ws[2], ws[3]);
    var first := [ws[0], ws[1], ws[2], ws[3]];
    assert [] + first == first;
    TwoMore(first, ws[4], ws[5]);
    OneMore(first + [ws[4], ws[5]], ws[6]);
    assert first + [ws[4], ws[5]] + [ws[6]] == ws;
    FlattenQuery(PACKAGE_HEAD, NSORDER, ASK, r.host, r.hostIP, r.wanted, NULL_IP);
  }

  lemma FlattenQuery(head: seq<byte>, a: byte, b: byte, c: seq<byte>, d: seq<byte>, e: seq<byte>, f: seq<byte>)
    ensures [] + head + [a] + [b] + c + d + e + f == head + [a, b] + c + d + e + f
  {
  }

  /** The stores of each builder tile [0, Length()) and spell the packet. */
  lemma StoresTile(r: Request)
    requires r.Sized()
    ensures Tile(Stores(r)) && Joined(Stores(r)) == Encode(r)
  {
    match r
    case Call(id) =>
      var ws := Stores(r)[..8];
      PartyStores(CALL, id, ws);
      TwoMore(ws, Store(57, [CODEC_H264]), Store(58, id.assiIP));
      assert ws + [Store(57, [CODEC_H264]), Store(58, id.assiIP)] == Stores(r);
    case End(id) =>
      PartyStores(CALLEND, id, Stores(r));
    case Force(id) =>
      PartyStores(FORCEIFRAME, id, Stores(r));
    case Find(_, _, _) =>
      QueryStores(r);
  }

  lemma StoresFit(r: Request, size: nat)
    requires r.Sized() && size >= 62
    ensures Inside(Stores(r), size)
  {
  }

  /** So the packet in a slot is the request, whatever the slot held before. */
  lemma BuiltPacket(buf: seq<byte>, r: Request)
    requires r.Sized() && |buf| >= 62
    ensures Inside(Stores(r), |buf|)
    ensures Apply(buf, Stores(r))[..r.Length()] == Encode(r)
    ensures Apply(buf, Stores(r))[r.Length()..] == buf[r.Length()..]
  {
    StoresFit(r, |buf|);
    StoresTile(r);
    TiledStores(buf, Stores(r));
  }
}
