/**
 * What the framing loop delivers when both handles hold the same stream and it
 * starts on a start code: exactly which bytes reach qsa_send_video, and when
 * that is the whole stream. At the end, what holds of any two streams.
 */
module Framing {
  import opened Bytes
  import opened AnnexB
  import opened NaluReader
  import opened FrameLoop

  /** At a loop head: reads of bits1 have never run short, and its cursor is
      behind bits by what is waiting to be sent plus what was dropped. */
  predicate InStep(d: seq<byte>, s: Loop) {
    && OnBoundary(d, s.cursor) && (s.eof <==> s.cursor == |d|)
    && !s.send && !s.eof1
    && s.cursor == s.cursor1 + s.ts + s.dropped
    && (s.held == [] ==> s.cursor1 == 0 && s.dropped == 0)
    && (s.held != [] ==> s.ts == 0)
  }

  /** Bytes of the non-slice units behind a slice. seen: a slice was met already. */
  function Late(us: seq<Unit>, head: byte, seen: bool): nat {
    if us == [] then 0
    else
      var h := HeadAfter(us[0], head);
      (if seen && !IsSlice(h) then us[0].Size() else 0) + Late(us[1..], h, seen || IsSlice(h))
  }

  function HasSlice(us: seq<Unit>, head: byte): bool {
    us != [] && (IsSlice(HeadAfter(us[0], head)) || HasSlice(us[1..], HeadAfter(us[0], head)))
  }

  /** The frames as a receiver that skips a repeated frame number takes them. */
  function Delivered(calls: seq<VideoCall>, last: nat): seq<byte> {
    if calls == [] then []
    else (if calls[0].num == last then [] else calls[0].data) + Delivered(calls[1..], calls[0].num)
  }

  // --------------------------------------------------------- one iteration

  /** One iteration, told in units. */
  lemma UnitStep(d: seq<byte>, s: Loop) returns (u: Unit, t: Loop, f: Loop)
    requires InStep(d, s) && !s.eof
    ensures u == UnitAt(d, s.cursor) && f == Fetch(d, Scan(d, s)) && t == Emit(f) == Iterate(d, d, s)
    ensures InStep(d, t) && t.cursor == s.cursor + u.Size() && t.head == HeadAfter(u, s.head)
    ensures IsSlice(t.head) ==>
              && t.count == s.count + 1 && t.dropped == s.dropped && t.cursor1 == s.cursor1 + s.ts + u.Size()
              && f.held == t.held == d[s.cursor1..t.cursor1] != []
    ensures !IsSlice(t.head) ==>
              && t.count == s.count && f.held == t.held == s.held && t.cursor1 == s.cursor1
              && t.dropped == s.dropped + (if s.held == [] then 0 else u.Size())
    ensures f.count == t.count && f.head == t.head && t.ts == (if t.held == [] then s.ts + u.Size() else 0)
  {
    u := UnitAt(d, s.cursor);
    UnitAtBoundary(d, s.cursor);
    f := Fetch(d, Scan(d, s));
    t := Emit(f);
    assert Scan(d, s).cursor == s.cursor + u.Size() <= |d|;
  }

  /** The same, with the rest of the run and of the stream behind it. */
  lemma UnitUnroll(d: seq<byte>, s: Loop) returns (u: Unit, t: Loop, sent: seq<VideoCall>)
    requires InStep(d, s) && !s.eof
    ensures u == UnitAt(d, s.cursor) && t == Iterate(d, d, s)
    ensures InStep(d, t) && s.cursor < t.cursor && t.head == HeadAfter(u, s.head)
    ensures t.ts == if t.held == [] then s.ts + u.Size() else 0
    ensures Fetch(d, Scan(d, s)).held == t.held
    ensures Split(d, s.cursor) == [u] + Split(d, t.cursor)
    ensures Calls(d, d, s) == sent + Calls(d, d, t) && Final(d, d, s) == Final(d, d, t)
    ensures if IsSlice(t.head) then
              && t.count == s.count + 1 && t.dropped == s.dropped && t.cursor1 == s.cursor1 + s.ts + u.Size() <= |d|
              && t.held == d[s.cursor1..t.cursor1] != [] && sent == [VideoCall(t.held, t.count, t.head as int % 32)]
            else
              && t.count == s.count && t.held == s.held && t.cursor1 == s.cursor1
              && t.dropped == s.dropped + (if s.held == [] then 0 else u.Size())
              && sent == if s.held == [] then [] else [VideoCall(t.held, t.count, t.head as int % 32)]
  {
    var f;
    u, t, f := UnitStep(d, s);
    sent := Sent(f);
    var first, e := SplitUnfold(d, s.cursor);
    assert first == u && e == t.cursor;
  }

  lemma DeliveredStep(sent: seq<VideoCall>, later: seq<VideoCall>, last: nat)
    requires |sent| <= 1
    ensures Delivered(sent + later, last) ==
              if sent == [] then Delivered(later, last)
              else (if sent[0].num == last then [] else sent[0].data) + Delivered(later, sent[0].num)
  {
    if sent == [] {
      assert sent + later == later;
    } else {
      assert (sent + later)[1..] == later;
    }
  }

  lemma LateCons(u: Unit, us: seq<Unit>, head: byte, seen: bool)
    ensures var h := HeadAfter(u, head);
            && Late([u] + us, head, seen) == (if seen && !IsSlice(h) then u.Size() else 0) + Late(us, h, seen || IsSlice(h))
            && HasSlice([u] + us, head) == (IsSlice(h) || HasSlice(us, h))
  {
    assert ([u] + us)[1..] == us;
  }

  lemma Join(d: seq<byte>, i: nat, j: nat, k: nat)
    requires i <= j <= k <= |d|
    ensures d[i..j] + d[j..k] == d[i..k]
  {
  }

  // ------------------------------------------------------------- whole runs

  /** From any loop head on: the two-cursor balance holds to the end, the bytes
      dropped are those of the late non-slice units, and the frames delivered are
      the bytes bits1 moved over. */
  lemma {:induction false} RunBalance(d: seq<byte>, s: Loop)
    requires InStep(d, s)
    ensures var z := Final(d, d, s);
            && InStep(d, z) && z.eof && s.cursor1 <= z.cursor1 <= |d|
            && z.dropped == s.dropped + Late(Split(d, s.cursor), s.head, s.held != [])
            && (z.held != [] <==> s.held != [] || HasSlice(Split(d, s.cursor), s.head))
            && Delivered(Calls(d, d, s), s.count) == d[s.cursor1..z.cursor1]
    decreases |d| - s.cursor
  {
    if s.eof {
      assert d[s.cursor1..s.cursor1] == [];
    } else {
      var u, t, sent := UnitUnroll(d, s);
      RunBalance(d, t);
      LateCons(u, Split(d, t.cursor), s.head, s.held != []);
      DeliveredStep(sent, Calls(d, d, t), s.count);
      Join(d, s.cursor1, t.cursor1, Final(d, d, t).cursor1);
    }
  }

  lemma LateIsInside(d: seq<byte>)
    requires |d| > 0 && PrefixAt(d, 0) != 0
    ensures Late(Split(d, 0), 0, false) <= |d|
  {
    RunBalance(d, Start(0));
  }

  /** The stream up to its last bytes, as many as its late non-slice units have;
      nothing if there is no slice. */
  function Kept(d: seq<byte>): seq<byte>
    requires |d| > 0 && PrefixAt(d, 0) != 0
  {
    LateIsInside(d);
    var us := Split(d, 0);
    if HasSlice(us, 0) then d[..|d| - Late(us, 0, false)] else []
  }

  lemma KeptIsAll(d: seq<byte>)
    requires |d| > 0 && PrefixAt(d, 0) != 0
    ensures Kept(d) == d <==> HasSlice(Split(d, 0), 0) && Late(Split(d, 0), 0, false) == 0
  {
    LateIsInside(d);
    assert d[..|d|] == d;
  }

  /** The whole of what the loop does with a stream that starts on a start code:
      nothing is sent without a slice; otherwise the frames make up a prefix of
      the stream, short by as many bytes as the non-slice units that follow a
      slice have. */
  lemma WhatIsDelivered(d: seq<byte>)
    requires |d| > 0 && PrefixAt(d, 0) != 0
    ensures Delivered(Calls(d, d, Start(0)), 0) == Kept(d)
  {
    RunBalance(d, Start(0));
    var z := Final(d, d, Start(0));
    assert z.held != [] ==> z.cursor1 == |d| - Late(Split(d, 0), 0, false);
  }

  /** The state at the head of iteration n + 1, or at the end. */
  function After(d: seq<byte>, d1: seq<byte>, n: nat): (s: Loop)
    ensures InFiles(d, d1, s)
  {
    if n == 0 then Start(0)
    else
      var s := After(d, d1, n - 1);
      if s.eof then s else Iterate(d, d1, s)
  }

  lemma InStepStays(d: seq<byte>, s: Loop)
    requires InStep(d, s)
    ensures s.eof || InStep(d, Iterate(d, d, s))
    ensures s.eof || ReadUnit(d, s.cursor).Found?
  {
    if !s.eof {
      var _, _, _ := UnitStep(d, s);
    }
  }

  /** The balance of the two cursors at every loop head. In particular the read
      of bits1 is never short, and the call of GetAnnexbNALU always finds a unit. */
  lemma {:induction false} EveryHead(d: seq<byte>, n: nat)
    requires |d| > 0 && PrefixAt(d, 0) != 0
    ensures var s := After(d, d, n);
            && InStep(d, s) && s.cursor == s.cursor1 + s.ts + s.dropped && !s.eof1
            && (s.eof || ReadUnit(d, s.cursor).Found?)
  {
    hide Scan, Fetch, Emit, Split, ReadUnit;
    if n > 0 {
      EveryHead(d, n - 1);
      InStepStays(d, After(d, d, n - 1));
    }
    InStepStays(d, After(d, d, n));
  }

  lemma InBoth<T>(a: seq<T>, b: seq<T>)
    ensures forall x :: x in a || x in b ==> x in a + b
  {
  }

  lemma FitsStep(d: seq<byte>, s: Loop)
    requires InFiles(d, d, s) && Span(d, s.cursor) <= MAX_NALU && |Fetch(d, Scan(d, s)).held| <= FRAME_CAP
    requires Fits(d, d, Iterate(d, d, s))
    ensures Fits(d, d, s)
  {
  }

  /** Buffers large enough for each unit and each frame are large enough for the run. */
  lemma {:induction false} FitsWhen(d: seq<byte>, s: Loop)
    requires InStep(d, s) && |s.held| <= FRAME_CAP
    requires forall u :: u in Split(d, s.cursor) ==> u.Size() + 4 <= MAX_NALU
    requires forall c :: c in Calls(d, d, s) ==> |c.data| <= FRAME_CAP
    ensures Fits(d, d, s)
    decreases |d| - s.cursor
  {
    if !s.eof {
      var u, t, sent := UnitUnroll(d, s);
      SpanIs(d, s.cursor);
      InBoth([u], Split(d, t.cursor));
      InBoth(sent, Calls(d, d, t));
      assert t.held != [] ==> sent[0].data == t.held;
      FitsWhen(d, t);
      FitsStep(d, s);
    }
  }

  // ----------------------------------------- when the whole stream gets across

  /** The NAL header byte each unit is judged by; an empty unit inherits one. */
  function Heads(us: seq<Unit>, head: byte): (hs: seq<byte>)
    ensures |hs| == |us|
  {
    if us == [] then [] else [HeadAfter(us[0], head)] + Heads(us[1..], HeadAfter(us[0], head))
  }

  /** Once slices start there is nothing but slices. */
  predicate SlicesLast(hs: seq<byte>) {
    forall i, j :: 0 <= i < j < |hs| && IsSlice(hs[i]) ==> IsSlice(hs[j])
  }

  predicate AllSlices(hs: seq<byte>) {
    forall i :: 0 <= i < |hs| ==> IsSlice(hs[i])
  }

  lemma SlicesCons(h: byte, tail: seq<byte>)
    ensures AllSlices([h] + tail) <==> IsSlice(h) && AllSlices(tail)
    ensures SlicesLast([h] + tail) <==> if IsSlice(h) then AllSlices(tail) else SlicesLast(tail)
    ensures (exists i :: 0 <= i < |[h] + tail| && IsSlice(([h] + tail)[i])) <==>
              IsSlice(h) || exists i :: 0 <= i < |tail| && IsSlice(tail[i])
  {
    var hs := [h] + tail;
    assert hs[0] == h;
    assert forall i :: 0 <= i < |tail| ==> tail[i] == hs[i + 1];
    assert forall i :: 1 <= i < |hs| ==> hs[i] == tail[i - 1];
  }

  lemma {:induction false} NothingLate(us: seq<Unit>, head: byte)
    ensures Late(us, head, true) == 0 <==> AllSlices(Heads(us, head))
    ensures Late(us, head, false) == 0 <==> SlicesLast(Heads(us, head))
    ensures HasSlice(us, head) <==> exists i :: 0 <= i < |us| && IsSlice(Heads(us, head)[i])
  {
    if us != [] {
      var h := HeadAfter(us[0], head);
      NothingLate(us[1..], h);
      SlicesCons(h, Heads(us[1..], h));
    }
  }

  /** The stream gets across whole exactly when it has a slice (type 1 or 5) and
      every other unit comes before the first one. */
  lemma DeliversAll(d: seq<byte>)
    requires |d| > 0 && PrefixAt(d, 0) != 0
    ensures var hs := Heads(Split(d, 0), 0);
            Delivered(Calls(d, d, Start(0)), 0) == d <==>
              && (exists i :: 0 <= i < |hs| && hs[i] as int % 32 in {1, 5})
              && (forall i, j :: 0 <= i < j < |hs| && hs[i] as int % 32 in {1, 5} ==> hs[j] as int % 32 in {1, 5})
  {
    WhatIsDelivered(d);
    KeptIsAll(d);
    NothingLate(Split(d, 0), 0);
    var hs := Heads(Split(d, 0), 0);
    assert forall i :: 0 <= i < |hs| ==> (IsSlice(hs[i]) <==> hs[i] as int % 32 in {1, 5});
  }

  /** nal_unit_type of a unit that has a byte. */
  function KindOf(u: Unit): nat
    requires u.payload != []
  {
    u.payload[0] as int % 32
  }

  lemma {:induction false} HeadsAreOwn(us: seq<Unit>, head: byte, i: nat)
    requires i < |us| && us[i].payload != []
    ensures Heads(us, head)[i] == us[i].payload[0]
  {
    if i > 0 {
      HeadsAreOwn(us[1..], HeadAfter(us[0], head), i - 1);
    }
  }

  /** The same told by the types of the units, none of them empty. */
  lemma DeliversAllTypes(d: seq<byte>, us: seq<Unit>)
    requires |d| > 0 && PrefixAt(d, 0) != 0 && us == Split(d, 0) && forall i :: 0 <= i < |us| ==> us[i].payload != []
    ensures Delivered(Calls(d, d, Start(0)), 0) == d <==>
              && (exists i :: 0 <= i < |us| && KindOf(us[i]) in {1, 5})
              && (forall i, j :: 0 <= i < j < |us| && KindOf(us[i]) in {1, 5} ==> KindOf(us[j]) in {1, 5})
  {
    hide Calls, Split, Delivered, Heads;
    DeliversAll(d);
    var hs := Heads(us, 0);
    forall i | 0 <= i < |us|
      ensures hs[i] as int % 32 == KindOf(us[i])
    {
      HeadsAreOwn(us, 0, i);
    }
  }

  // ------------------------------------------------------- frame numbers

  /** The calls that send a frame for the first time. */
  function FirstSends(calls: seq<VideoCall>, last: nat): seq<VideoCall> {
    if calls == [] then []
    else (if calls[0].num == last then [] else [calls[0]]) + FirstSends(calls[1..], calls[0].num)
  }

  function Datas(calls: seq<VideoCall>): (ds: seq<seq<byte>>)
    ensures |ds| == |calls| && forall i :: 0 <= i < |calls| ==> ds[i] == calls[i].data
  {
    seq(|calls|, i requires 0 <= i < |calls| => calls[i].data)
  }

  lemma {:induction false} DeliveredIsFirsts(calls: seq<VideoCall>, last: nat)
    ensures Delivered(calls, last) == Concat(Datas(FirstSends(calls, last)))
  {
    if calls != [] {
      var c, rest := calls[0], FirstSends(calls[1..], calls[0].num);
      DeliveredIsFirsts(calls[1..], c.num);
      if c.num == last {
        assert [] + rest == rest;
        assert [] + Delivered(calls[1..], c.num) == Delivered(calls[1..], c.num);
      } else {
        assert Datas([c] + rest)[1..] == Datas(rest);
      }
    }
  }

  /** Each call either sends the frame before it once more, or the next number. */
  predicate Counted(calls: seq<VideoCall>, last: nat, held: seq<byte>) {
    calls == [] || (
      && calls[0].data != []
      && (calls[0].num == last + 1 || (calls[0].num == last && calls[0].data == held))
      && Counted(calls[1..], calls[0].num, calls[0].data))
  }

  lemma CountedStep(sent: seq<VideoCall>, later: seq<VideoCall>, last: nat, held: seq<byte>)
    requires |sent| <= 1
    requires if sent == [] then Counted(later, last, held)
             else Counted(later, sent[0].num, sent[0].data) && sent[0].data != []
                  && (sent[0].num == last + 1 || (sent[0].num == last && sent[0].data == held))
    ensures Counted(sent + later, last, held)
  {
    if sent == [] {
      assert sent + later == later;
    } else {
      assert (sent + later)[1..] == later;
    }
  }

  /** The loop numbers its frames without a gap and repeats only the last one. */
  lemma {:induction false} LoopCounts(d: seq<byte>, s: Loop)
    requires InStep(d, s)
    ensures Counted(Calls(d, d, s), s.count, s.held)
    decreases |d| - s.cursor
  {
    if !s.eof {
      var u, t, sent := UnitUnroll(d, s);
      LoopCounts(d, t);
      CountedStep(sent, Calls(d, d, t), s.count, s.held);
    }
  }

  /** Call i repeats the frame before the run, or carries the frame of its number. */
  predicate Explained(c: VideoCall, firsts: seq<VideoCall>, last: nat, held: seq<byte>) {
    || (c.num == last && c.data == held && held != [])
    || (last < c.num <= last + |firsts| && firsts[c.num - last - 1].data == c.data)
  }

  lemma {:induction false} FirstsExplain(calls: seq<VideoCall>, last: nat, held: seq<byte>, i: nat)
    requires Counted(calls, last, held) && i < |calls|
    ensures Explained(calls[i], FirstSends(calls, last), last, held)
  {
    var c, rest := calls[0], calls[1..];
    var tail, firsts := FirstSends(rest, c.num), FirstSends(calls, last);
    assert firsts == if c.num == last then tail else [c] + tail;
    if i > 0 {
      FirstsExplain(rest, c.num, c.data, i - 1);
      assert calls[i] == rest[i - 1];
      var n := calls[i].num;
      assert c.num != last && n != c.num ==> firsts[n - last - 1] == tail[n - c.num - 1];
    }
  }

  lemma {:induction false} FirstsNumbered(calls: seq<VideoCall>, last: nat, held: seq<byte>, m: nat) returns (i: nat)
    requires Counted(calls, last, held) && m < |FirstSends(calls, last)|
    ensures FirstSends(calls, last)[m].num == last + 1 + m
    ensures i < |calls| && calls[i] == FirstSends(calls, last)[m]
  {
    var c, rest := calls[0], calls[1..];
    var tail, firsts := FirstSends(rest, c.num), FirstSends(calls, last);
    if c.num == last {
      assert firsts == tail;
      i := FirstsNumbered(rest, c.num, c.data, m);
      i := i + 1;
    } else {
      assert firsts == [c] + tail;
      i := 0;
      if m > 0 {
        assert firsts[m] == tail[m - 1];
        i := FirstsNumbered(rest, c.num, c.data, m - 1);
        i := i + 1;
      }
    }
  }

  lemma Regroup<T>(a: seq<T>, b: seq<T>, c: seq<T>)
    ensures a + (b + c) == a + b + c
  {
  }

  lemma ConsIsInjective<T>(x: T, xs: seq<T>, y: T, ys: seq<T>)
    requires [x] + xs == [y] + ys
    ensures x == y && xs == ys
  {
    assert ([x] + xs)[0] == x && ([y] + ys)[0] == y;
    assert ([x] + xs)[1..] == xs && ([y] + ys)[1..] == ys;
  }

  /** A non-slice unit a and a slice b behind it, with rest to come. */
  lemma GapThenSlice(d: seq<byte>, s: Loop, a: Unit, b: Unit, rest: seq<Unit>) returns (t: Loop)
    requires InStep(d, s) && Split(d, s.cursor) == [a] + ([b] + rest)
    requires a.payload != [] && !IsSlice(a.payload[0]) && b.payload != [] && IsSlice(b.payload[0])
    ensures InStep(d, t) && Split(d, t.cursor) == rest && t.count == s.count + 1
    ensures t.cursor1 == s.cursor1 + (if s.held == [] then s.ts + a.Size() else 0) + b.Size() <= |d|
    ensures t.held == d[s.cursor1..t.cursor1] != []
    ensures Calls(d, d, s) ==
              (if s.held == [] then [] else [VideoCall(s.held, s.count, a.payload[0] as int % 32)])
              + [VideoCall(t.held, t.count, b.payload[0] as int % 32)] + Calls(d, d, t)
  {
    var u0, m, c0 := UnitUnroll(d, s);
    ConsIsInjective(u0, Split(d, m.cursor), a, [b] + rest);
    var u1, c1;
    u1, t, c1 := UnitUnroll(d, m);
    ConsIsInjective(u1, Split(d, t.cursor), b, rest);
    Regroup(c0, c1, Calls(d, d, t));
  }

  predicate IsGap(u: Unit) {
    u.payload != [] && !IsSlice(u.payload[0])
  }

  predicate IsFrame(u: Unit) {
    u.payload != [] && IsSlice(u.payload[0])
  }

  lemma DropEmpty<T>(x: T, all: seq<T>, rest: seq<T>)
    requires all == [] + [x] + rest
    ensures all == [x] + rest
  {
  }

  /** At the start of the run both units become the first frame. */
  lemma FirstFrame(d: seq<byte>, a: Unit, b: Unit, rest: seq<Unit>) returns (s: Loop, x: VideoCall)
    requires OnBoundary(d, 0) && d != [] && Split(d, 0) == [a] + ([b] + rest) && IsGap(a) && IsFrame(b)
    ensures InStep(d, s) && Split(d, s.cursor) == rest && s.count == 1 && s.cursor1 == a.Size() + b.Size() <= |d|
    ensures s.held == x.data != [] && x == VideoCall(d[0..a.Size() + b.Size()], 1, KindOf(b))
    ensures Calls(d, d, Start(0)) == [x] + Calls(d, d, s)
  {
    hide Calls, Split;
    s := GapThenSlice(d, Start(0), a, b, rest);
    x := VideoCall(s.held, s.count, b.payload[0] as int % 32);
    DropEmpty(x, Calls(d, d, Start(0)), Calls(d, d, s));
  }

  /** Later on the non-slice unit sends the frame before once more, and the slice
      sends a frame of its own length from where the last one ended. */
  lemma SentAgain(d: seq<byte>, s: Loop, c: Unit, e: Unit, rest: seq<Unit>, n: nat) returns (t: Loop, y: VideoCall, z: VideoCall)
    requires InStep(d, s) && s.cursor1 == n && s.held != [] && Split(d, s.cursor) == [c] + ([e] + rest) && IsGap(c) && IsFrame(e)
    ensures InStep(d, t) && Split(d, t.cursor) == rest && n + e.Size() <= |d|
    ensures y == VideoCall(s.held, s.count, KindOf(c)) && z == VideoCall(d[n..n + e.Size()], s.count + 1, KindOf(e))
    ensures Calls(d, d, s) == [y] + [z] + Calls(d, d, t)
  {
    hide Calls, Split;
    t := GapThenSlice(d, s, c, e, rest);
    y := VideoCall(s.held, s.count, c.payload[0] as int % 32);
    z := VideoCall(t.held, t.count, e.payload[0] as int % 32);
  }

  lemma Three<T>(all: seq<T>, some: seq<T>, none: seq<T>, x: T, y: T, z: T)
    requires all == [x] + some && some == [y] + [z] + none && none == []
    ensures all == [x, y, z]
  {
  }

  lemma NothingLeft(d: seq<byte>, t: Loop)
    requires InStep(d, t) && Split(d, t.cursor) == []
    ensures Calls(d, d, t) == []
  {
  }

  /** Parameter set, slice, parameter set, slice: the case DeliversAll excludes.
      The first frame goes out twice, the second time with the number it had, and
      the last frame starts where the repeated parameter set does. */
  lemma RepeatedParameterSet(d: seq<byte>, a: Unit, b: Unit, c: Unit, e: Unit) returns (x: VideoCall, y: VideoCall, z: VideoCall)
    requires OnBoundary(d, 0) && d != [] && Split(d, 0) == [a] + ([b] + ([c] + ([e] + [])))
    requires IsGap(a) && IsFrame(b) && IsGap(c) && IsFrame(e)
    ensures Calls(d, d, Start(0)) == [x, y, z] && a.Size() + b.Size() + e.Size() <= |d|
    ensures var n := a.Size() + b.Size();
            && x == VideoCall(d[0..n], 1, KindOf(b)) && y == VideoCall(x.data, 1, KindOf(c))
            && z == VideoCall(d[n..n + e.Size()], 2, KindOf(e))
  {
    hide Calls, Split;
    var s, t;
    s, x := FirstFrame(d, a, b, [c] + ([e] + []));
    t, y, z := SentAgain(d, s, c, e, [], a.Size() + b.Size());
    NothingLeft(d, t);
    Three(Calls(d, d, Start(0)), Calls(d, d, s), Calls(d, d, t), x, y, z);
  }

  /** One such stream, a parameter set and a slice and both again: the last frame
      is nothing but a start code. */
  lemma LastFrameLost(sps: Unit, idr: Unit, us: seq<Unit>)
    requires sps == Unit(true, [0x67]) && idr == Unit(false, [0x65])
    requires us == [sps] + ([idr] + ([sps] + ([idr] + [])))
    ensures var d := Serialise(us);
            |Calls(d, d, Start(0))| == 3 && Calls(d, d, Start(0))[2] == VideoCall([0, 0, 0, 1], 2, 5)
  {
    hide Calls, Split;
    var d := Serialise(us);
    assert Printable(us) by { assert us == [sps, idr, sps, idr]; }
    SplitPrinted(d, 0, us);
    var x, y, z := RepeatedParameterSet(d, sps, idr, sps, idr);
    BehindTwo(d, sps, idr, sps, [idr] + []);
    assert d[9..9 + idr.Size()] == d[9..13];
  }

  /** A long start code behind two units. */
  lemma BehindTwo(d: seq<byte>, a: Unit, b: Unit, c: Unit, rest: seq<Unit>)
    requires d == Serialise([a] + ([b] + ([c] + rest))) && c.long
    ensures var n := a.Size() + b.Size(); n + 4 <= |d| && d[n..n + 4] == [0, 0, 0, 1]
  {
    SerialiseCons(a, [b] + ([c] + rest));
    SerialiseCons(b, [c] + rest);
    SerialiseCons(c, rest);
    var n := a.Size() + b.Size();
    assert d[n..] == c.Bytes() + Serialise(rest);
    assert d[n..n + 4] == d[n..][..4];
  }

  lemma Two<T>(all: seq<T>, some: seq<T>, none: seq<T>, x: T, y: T)
    requires all == [x] + some && some == [y] + none && none == []
    ensures all == [x, y]
  {
  }

  /** The ordinary stream: a unit that is no slice, a key frame (type 5), a
      dependent one (type 1). Two frames go out, the first with the unit before
      it, under the types of their slices. */
  lemma KeyThenDependent(d: seq<byte>, a: Unit, b: Unit, c: Unit) returns (x: VideoCall, y: VideoCall)
    requires OnBoundary(d, 0) && d != [] && Split(d, 0) == [a] + ([b] + ([c] + []))
    requires a.payload != [] && b.payload != [] && c.payload != []
    requires KindOf(a) !in {1, 5} && KindOf(b) == 5 && KindOf(c) == 1
    ensures Calls(d, d, Start(0)) == [x, y] && a.Size() + b.Size() + c.Size() <= |d|
    ensures var n := a.Size() + b.Size(); x == VideoCall(d[0..n], 1, 5) && y == VideoCall(d[n..n + c.Size()], 2, 1)
  {
    hide Calls, Split;
    var s;
    s, x := FirstFrame(d, a, b, [c] + []);
    y := LastSlice(d, s, c, a.Size() + b.Size());
    Two(Calls(d, d, Start(0)), Calls(d, d, s), [], x, y);
  }

  lemma LastSlice(d: seq<byte>, s: Loop, c: Unit, n: nat) returns (y: VideoCall)
    requires InStep(d, s) && s.held != [] && s.cursor1 == n && Split(d, s.cursor) == [c] + [] && IsFrame(c)
    ensures n + c.Size() <= |d| && y == VideoCall(d[n..n + c.Size()], s.count + 1, KindOf(c))
    ensures Calls(d, d, s) == [y] + []
  {
    var u, t, sent := UnitUnroll(d, s);
    ConsIsInjective(u, Split(d, t.cursor), c, []);
    y := sent[0];
    NothingLeft(d, t);
  }

  /** One such stream: SPS, IDR and P slice, of 5, 4 and 4 bytes. */
  lemma SpsIdrP(sps: Unit, idr: Unit, p: Unit, us: seq<Unit>)
    requires sps == Unit(true, [0x67]) && idr == Unit(false, [0x65]) && p == Unit(false, [0x41])
    requires us == [sps] + ([idr] + ([p] + []))
    ensures var d := Serialise(us);
            Calls(d, d, Start(0)) == [VideoCall([0, 0, 0, 1, 0x67, 0, 0, 1, 0x65], 1, 5), VideoCall([0, 0, 1, 0x41], 2, 1)]
  {
    hide Calls, Split;
    var d := Serialise(us);
    assert Printable(us) by { assert us == [sps, idr, p]; }
    SplitPrinted(d, 0, us);
    SerialiseCons(sps, [idr] + ([p] + []));
    SerialiseCons(idr, [p] + []);
    SerialiseCons(p, []);
    assert d == [0, 0, 0, 1, 0x67, 0, 0, 1, 0x65, 0, 0, 1, 0x41];
    var x, y := KeyThenDependent(d, sps, idr, p);
    assert d[0..9] == [0, 0, 0, 1, 0x67, 0, 0, 1, 0x65] && d[9..13] == [0, 0, 1, 0x41];
  }

  // ------------------------------------------------------ two different streams

  /** One iteration: nothing is sent and nothing taken, or the frame before is sent
      again, or what has just been taken. */
  lemma EitherHandle(d: seq<byte>, d1: seq<byte>, s: Loop, last: nat) returns (t: Loop, sent: seq<VideoCall>, next: nat)
    requires InFiles(d, d1, s) && !s.eof && last <= s.count && (s.held != [] ==> last == s.count)
    ensures t == Iterate(d, d1, s) && InFiles(d, d1, t) && next <= t.count && (t.held != [] ==> next == t.count)
    ensures s.cursor <= t.cursor && (t.cursor == s.cursor ==> t.eof)
    ensures Calls(d, d1, s) == sent + Calls(d, d1, t) && Final(d, d1, s) == Final(d, d1, t)
    ensures |sent| <= 1 && s.cursor1 <= t.cursor1 && next == if sent == [] then last else sent[0].num
    ensures d1[s.cursor1..t.cursor1] == if sent == [] || next == last then [] else sent[0].data
  {
    var f := Fetch(d1, Scan(d, s));
    t, sent := Emit(f), Sent(f);
    next := if sent == [] then last else f.count;
  }

  /** Whatever the two handles hold, frames sent for the first time are, in order,
      the bytes taken from the second one: nothing of it is skipped or sent twice
      as new, also after a short read. */
  lemma {:induction false} DeliversSecond(d: seq<byte>, d1: seq<byte>, s: Loop, last: nat)
    requires InFiles(d, d1, s) && last <= s.count && (s.held != [] ==> last == s.count)
    ensures s.cursor1 <= Final(d, d1, s).cursor1
    ensures Delivered(Calls(d, d1, s), last) == d1[s.cursor1..Final(d, d1, s).cursor1]
    decreases |d| - s.cursor, !s.eof
  {
    if s.eof {
      assert Calls(d, d1, s) == [];
    } else {
      hide Calls, Final, Iterate, Delivered;
      var t, sent, next := EitherHandle(d, d1, s, last);
      DeliversSecond(d, d1, t, next);
      DeliveredStep(sent, Calls(d, d1, t), last);
      Join(d1, s.cursor1, t.cursor1, Final(d, d1, t).cursor1);
    }
  }

  /** Once the second handle has met its end, the next slice (type 1 or 5) empties
      the frame buffer, and the loop never sends again. */
  lemma {:induction false} NothingAfterTheEnd(d: seq<byte>, d1: seq<byte>, s: Loop)
    requires InFiles(d, d1, s) && s.eof1 && (s.send || s.eof || Scan(d, s).head as int % 32 in {1, 5})
    ensures Calls(d, d1, s) == []
    decreases |d| - s.cursor, !s.eof
  {
    if !s.eof {
      NothingAfterTheEnd(d, d1, Iterate(d, d1, s));
    }
  }
}
