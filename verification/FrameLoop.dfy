/**
 * The framing loop of user_main. One file handle (bits) is scanned unit by unit;
 * when a slice has been seen, as many bytes as were scanned since the last frame
 * are taken from a second handle (bits1) and sent as one frame.
 */
module FrameLoop {
  import opened Bytes
  import opened AnnexB
  import opened NaluReader

  const MAX_NALU: nat := 0x8000000
  const FRAME_CAP: nat := 1024 * 2000

  /** One call of qsa_send_video: frame bytes, frame number, NAL unit type. */
  datatype VideoCall = VideoCall(data: seq<byte>, num: nat, kind: nat)

  /** The variables that live across iterations. head is nalu->buf[0], which an
      empty unit leaves as it was; held is framebuffer[..w_length]. dropped is not
      in the program: it counts scanned bytes that no read of bits1 will match. */
  datatype Loop = Loop(
    cursor: nat, eof: bool, len: nat, head: byte,
    ts: nat, held: seq<byte>, count: nat, send: bool,
    cursor1: nat, eof1: bool, dropped: nat)

  function Start(ts: nat): Loop {
    Loop(0, false, 0, 0, ts, [], 0, false, 0, false, 0)
  }

  predicate IsSlice(head: byte) {
    head % 32 == 5 || head % 32 == 1
  }

  /** The file and the fields of nalu that the loop reads, after a call. */
  datatype Reader = Reader(cursor: nat, eof: bool, prefix: nat, len: nat, head: byte)

  function HeadAfter(u: Unit, head: byte): byte {
    if u.payload == [] then head else u.payload[0]
  }

  function AfterCall(d: seq<byte>, c: nat, len: nat, head: byte): (r: Reader)
    requires c <= |d|
    ensures c <= r.cursor <= |d| && (r.cursor == c ==> r.eof)
  {
    match ReadUnit(d, c)
    case Short => Reader(|d|, true, 3, len, head)
    case NoCode => Reader(c + 4, false, 3, len, head)
    case Found(u, last) => Reader(c + u.Size(), last, u.Prefix(), |u.payload|, HeadAfter(u, head))
  }

  /** GetAnnexbNALU and what the loop adds up from it. */
  function Scan(d: seq<byte>, s: Loop): (t: Loop)
    requires s.cursor <= |d|
    ensures t.cursor <= |d| && s.cursor <= t.cursor && (t.cursor == s.cursor ==> t.eof)
  {
    var r := AfterCall(d, s.cursor, s.len, s.head);
    s.(cursor := r.cursor, eof := r.eof, len := r.len, head := r.head,
       ts := s.ts + r.prefix + r.len, send := s.send || IsSlice(r.head))
  }

  function Fetch(d1: seq<byte>, s: Loop): Loop
    requires s.cursor1 <= |d1|
  {
    if !s.send then s
    else if s.eof1 then s.(held := [])
    else
      var got := if s.ts <= |d1| - s.cursor1 then s.ts else |d1| - s.cursor1;
      s.(count := s.count + 1, held := d1[s.cursor1..s.cursor1 + got],
         cursor1 := s.cursor1 + got, eof1 := got < s.ts)
  }

  /** w_length != 0: send, also when nothing was fetched this time. */
  function Emit(s: Loop): Loop {
    if s.held == [] then s
    else s.(ts := 0, send := false, dropped := s.dropped + if s.send then 0 else s.ts)
  }

  function Sent(s: Loop): seq<VideoCall> {
    if s.held == [] then [] else [VideoCall(s.held, s.count, s.head as int % 32)]
  }

  predicate InFiles(d: seq<byte>, d1: seq<byte>, s: Loop) {
    s.cursor <= |d| && s.cursor1 <= |d1|
  }

  function Iterate(d: seq<byte>, d1: seq<byte>, s: Loop): (t: Loop)
    requires InFiles(d, d1, s)
    ensures InFiles(d, d1, t) && s.cursor <= t.cursor && (t.cursor == s.cursor ==> t.eof)
  {
    Emit(Fetch(d1, Scan(d, s)))
  }

  function Calls(d: seq<byte>, d1: seq<byte>, s: Loop): seq<VideoCall>
    requires InFiles(d, d1, s)
    decreases |d| - s.cursor, !s.eof
  {
    if s.eof then [] else Sent(Fetch(d1, Scan(d, s))) + Calls(d, d1, Iterate(d, d1, s))
  }

  function Final(d: seq<byte>, d1: seq<byte>, s: Loop): (t: Loop)
    requires InFiles(d, d1, s)
    ensures InFiles(d, d1, t) && t.eof
    decreases |d| - s.cursor, !s.eof
  {
    if s.eof then s else Final(d, d1, Iterate(d, d1, s))
  }

  /** What the program needs of its input: every unit fits the scratch buffer and
      every frame fits framebuffer. */
  predicate Fits(d: seq<byte>, d1: seq<byte>, s: Loop)
    requires InFiles(d, d1, s)
    decreases |d| - s.cursor, !s.eof
  {
    s.eof || (
      && Span(d, s.cursor) <= MAX_NALU
      && |Fetch(d1, Scan(d, s)).held| <= FRAME_CAP
      && Fits(d, d1, Iterate(d, d1, s)))
  }

  lemma SpliceHead(dst: seq<byte>, src: seq<byte>)
    requires |src| <= |dst| && dst != []
    ensures Splice(dst, 0, src)[0] == if src == [] then dst[0] else src[0]
  {
  }

  /** bits and nalu are where s says. */
  ghost predicate Scanned(bits: BitFile, n: Nalu, s: Loop)
    reads bits, n, n.buf
  {
    && bits.Valid() && n.Valid() && n.max_size == MAX_NALU
    && bits.cursor == s.cursor && bits.eof == s.eof && n.len == s.len && n.buf[0] == s.head
  }

  /** bits1, framebuffer and the counters are what s says. */
  ghost predicate Fetched(bits1: BitFile, framebuffer: array<byte>, w_length: nat, count: nat, s: Loop)
    reads bits1, framebuffer
  {
    && bits1.Valid() && framebuffer.Length == FRAME_CAP && w_length <= FRAME_CAP
    && bits1.cursor == s.cursor1 && bits1.eof == s.eof1 && count == s.count
    && framebuffer[..w_length] == s.held
  }

  /** The first half of an iteration: read a unit, add its length up. */
  method ScanPhase(bits: BitFile, n: Nalu, ts_length: nat, sendflag: nat, ghost s: Loop) returns (ts: nat, send: nat)
    requires Scanned(bits, n, s) && ts_length == s.ts && (sendflag == 1 <==> s.send)
    requires Span(bits.data, bits.cursor) <= MAX_NALU
    modifies bits, n, n.buf
    ensures var t := Scan(bits.data, s); Scanned(bits, n, t) && ts == t.ts && (send == 1 <==> t.send)
    ensures send == if n.buf[0] % 32 == 1 || n.buf[0] % 32 == 5 then 1 else sendflag
  {
    ghost var o := ReadUnit(bits.data, bits.cursor);
    ghost var before := n.buf[..];
    var _ := GetAnnexbNALU(bits, n);
    if o.Found? {
      SpliceHead(before, o.unit.payload);
      assert n.buf[0] == n.buf[..][0];
    }
    assert Reader(bits.cursor, bits.eof, n.startcodeprefix_len, n.len, n.buf[0]) == AfterCall(bits.data, s.cursor, s.len, s.head);
    ts, send := ts_length, sendflag;
    ts := ts + n.startcodeprefix_len;
    ts := ts + n.len;
    if n.nal_unit_type == 5 || n.nal_unit_type == 1 {
      send := 1;
    }
  }

  /** The middle: take the frame from the second handle. */
  method FetchPhase(bits1: BitFile, framebuffer: array<byte>, w_length: nat, count: nat, ts_length: nat, sendflag: nat, ghost s: Loop)
    returns (w: nat, c: nat)
    requires Fetched(bits1, framebuffer, w_length, count, s) && ts_length == s.ts && (sendflag == 1 <==> s.send)
    requires |Fetch(bits1.data, s).held| <= FRAME_CAP
    modifies bits1, framebuffer
    ensures Fetched(bits1, framebuffer, w, c, Fetch(bits1.data, s))
  {
    w, c := w_length, count;
    if sendflag == 1 {
      w := 0;
      if !bits1.eof {
        c := c + 1;
        w := bits1.Fread(framebuffer, 0, ts_length);
      }
    }
  }

  /** The end: send what framebuffer holds, if anything. */
  method EmitPhase(n: Nalu, framebuffer: array<byte>, w_length: nat, count: nat, ts_length: nat, sendflag: nat, ghost f: Loop)
    returns (sent: seq<VideoCall>, ts: nat, send: nat)
    requires n.Valid() && n.buf[0] == f.head && w_length <= framebuffer.Length && framebuffer[..w_length] == f.held
    requires count == f.count && ts_length == f.ts && (sendflag == 1 <==> f.send)
    ensures sent == Sent(f) && ts == Emit(f).ts && (send == 1 <==> Emit(f).send)
  {
    sent, ts, send := [], ts_length, sendflag;
    if w_length != 0 {
      sent := [VideoCall(framebuffer[..w_length], count, n.nal_unit_type)];
      ts := 0;
      send := 0;
    }
  }

  /** calls is what has been sent on the way from s0 to s. */
  ghost predicate Sending(d: seq<byte>, d1: seq<byte>, s0: Loop, calls: seq<VideoCall>, s: Loop) {
    && InFiles(d, d1, s0) && InFiles(d, d1, s) && Fits(d, d1, s)
    && Calls(d, d1, s0) == calls + Calls(d, d1, s)
    && Final(d, d1, s0) == Final(d, d1, s)
  }

  lemma SendingStep(d: seq<byte>, d1: seq<byte>, s0: Loop, calls: seq<VideoCall>, s: Loop)
    requires Sending(d, d1, s0, calls, s) && !s.eof
    ensures var f := Fetch(d1, Scan(d, s));
            Span(d, s.cursor) <= MAX_NALU && |f.held| <= FRAME_CAP && Sending(d, d1, s0, calls + Sent(f), Emit(f))
  {
    var f := Fetch(d1, Scan(d, s));
    assert calls + (Sent(f) + Calls(d, d1, Emit(f))) == (calls + Sent(f)) + Calls(d, d1, Emit(f));
  }

  /** Scan leaves the second handle's side alone, Fetch the first handle's. */
  lemma PhasesApart(d: seq<byte>, d1: seq<byte>, s: Loop)
    requires InFiles(d, d1, s)
    ensures var t := Scan(d, s); t.cursor1 == s.cursor1 && t.eof1 == s.eof1 && t.count == s.count && t.held == s.held
    ensures var t, f := Scan(d, s), Fetch(d1, Scan(d, s));
            && f.cursor == t.cursor && f.eof == t.eof && f.len == t.len && f.head == t.head
            && f.ts == t.ts && f.send == t.send
  {
  }

  lemma SendingEnds(d: seq<byte>, d1: seq<byte>, s0: Loop, calls: seq<VideoCall>, s: Loop)
    requires Sending(d, d1, s0, calls, s) && s.eof
    ensures calls == Calls(d, d1, s0) && s.ts == Final(d, d1, s0).ts
  {
  }

  /** The loop, from handles just opened. */
  method SendFrames(bits: BitFile, bits1: BitFile, n: Nalu, framebuffer: array<byte>, ts0: nat)
    returns (calls: seq<VideoCall>, ts_length: nat)
    requires bits != bits1 && n.buf != framebuffer
    requires Scanned(bits, n, Start(ts0)) && Fetched(bits1, framebuffer, 0, 0, Start(ts0))
    requires Fits(bits.data, bits1.data, Start(ts0))
    modifies bits, bits1, n, n.buf, framebuffer
    ensures calls == Calls(bits.data, bits1.data, Start(ts0))
    ensures ts_length == Final(bits.data, bits1.data, Start(ts0)).ts
  {
    hide Calls, Final, Fits, Scan, Fetch, Span;
    ghost var d, d1 := bits.data, bits1.data;
    ghost var s := Start(ts0);
    var w_length, count, sendflag := 0, 0, 0;
    calls, ts_length := [], ts0;
    while !bits.eof
      invariant Scanned(bits, n, s) && Fetched(bits1, framebuffer, w_length, count, s)
      invariant ts_length == s.ts && (sendflag == 1 <==> s.send)
      invariant Sending(d, d1, Start(ts0), calls, s)
      decreases |d| - bits.cursor, !bits.eof
    {
      SendingStep(d, d1, Start(ts0), calls, s);
      PhasesApart(d, d1, s);
      ghost var t := Scan(d, s);
      ts_length, sendflag := ScanPhase(bits, n, ts_length, sendflag, s);
      ghost var f := Fetch(d1, t);
      w_length, count := FetchPhase(bits1, framebuffer, w_length, count, ts_length, sendflag, t);
      var sent;
      sent, ts_length, sendflag := EmitPhase(n, framebuffer, w_length, count, ts_length, sendflag, f);
      calls, s := calls + sent, Emit(f);
    }
    SendingEnds(d, d1, Start(ts0), calls, s);
  }

  /** What outlives a call of user_main: the static length counter and the frame buffer. */
  class Demo {
    var ts_length: nat
    const framebuffer: array<byte>

    constructor ()
      ensures ts_length == 0 && fresh(framebuffer) && framebuffer.Length == FRAME_CAP
    {
      ts_length := 0;
      framebuffer := new byte[FRAME_CAP](_ => 0);
    }

    method UserMain(stream: seq<byte>, stream1: seq<byte>) returns (calls: seq<VideoCall>)
      requires framebuffer.Length == FRAME_CAP
      requires Fits(stream, stream1, Start(ts_length))
      modifies `ts_length, framebuffer
      ensures calls == Calls(stream, stream1, Start(old(ts_length)))
      ensures ts_length == Final(stream, stream1, Start(old(ts_length))).ts
    {
      var bits := new BitFile(stream);
      var bits1 := new BitFile(stream1);
      var n := new Nalu(MAX_NALU);
      forall i | 0 <= i < framebuffer.Length { framebuffer[i] := 0; }
      calls, ts_length := SendFrames(bits, bits1, n, framebuffer, ts_length);
    }
  }
}
