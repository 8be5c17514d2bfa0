/** From a stream on one side to the same stream on the other. */
module Pipeline {
  import opened Bytes
  import opened AnnexB
  import opened FrameLoop
  import opened Framing
  import opened TalkPacket
  import opened Fragments
  import opened Reassembly

  /** What the device is set to when a frame is sent. */
  datatype Setting = Setting(status: int, id: Identity, now: nat) {
    predicate InCall() {
      status > 0 && id.Sized() && now < 0x1_0000_0000
    }
  }

  /** The frame the device makes of a call. */
  function FrameOf(c: VideoCall, x: Setting): (f: Frame)
    requires x.InCall()
    ensures f.Sendable() && f.IsVideo()
  {
    VideoFrame(x.status, x.id, x.now, c.data, c.num, c.kind)
  }

  predicate AllInCall(xs: seq<Setting>) {
    forall i :: 0 <= i < |xs| ==> xs[i].InCall()
  }

  function FramesOf(calls: seq<VideoCall>, xs: seq<Setting>): (fs: seq<Frame>)
    requires |xs| == |calls| && AllInCall(xs)
    ensures |fs| == |calls| && forall i :: 0 <= i < |fs| ==> fs[i] == FrameOf(calls[i], xs[i])
  {
    seq(|calls|, i requires 0 <= i < |calls| => FrameOf(calls[i], xs[i]))
  }

  /** The receiver's video frames 1 to n, one after the other. */
  function Play(st: State, n: nat): seq<byte> {
    if n == 0 then []
    else
      Play(st, n - 1) + match Output(st, Key(Trunc16(n), true)) { case Some(b) => b case None => [] }
  }

  lemma {:induction false} PlayIsConcat(st: State, parts: seq<seq<byte>>, n: nat)
    requires n <= |parts|
    requires forall i :: 0 <= i < n ==> Output(st, Key(Trunc16(i + 1), true)) == Some(parts[i])
    ensures Play(st, n) == Concat(parts[..n])
  {
    if n > 0 {
      PlayIsConcat(st, parts, n - 1);
      assert parts[..n] == parts[..n - 1] + [parts[n - 1]];
      ConcatAppend(parts[..n - 1], [parts[n - 1]]);
      assert Concat([parts[n - 1]]) == parts[n - 1];
      assert 0 <= n - 1 < n;
      assert Output(st, Key(Trunc16(n), true)) == Some(parts[n - 1]);
    }
  }

  predicate FramesFit(calls: seq<VideoCall>) {
    forall i :: 0 <= i < |calls| ==> 0 < |calls[i].data| <= FRAME_CAP
  }

  /** Everything sent for the frames is there, and nothing else is. */
  ghost predicate Carries(dgs: seq<seq<byte>>, fs: seq<Frame>) {
    && (forall i :: 0 <= i < |fs| ==> fs[i].Sendable())
    && (forall dg :: dg in dgs ==> SentBy(fs, dg))
    && (forall i, j :: 0 <= i < |fs| && 1 <= j <= fs[i].Total() ==> Fragment(fs[i], j) in dgs)
  }

  /** A frame of the loop's size has exact counters. */
  lemma FrameIsOnWire(c: VideoCall, x: Setting)
    requires x.InCall() && 0 < |c.data| <= FRAME_CAP
    ensures OnWire(FrameOf(c, x)) && FrameKey(FrameOf(c, x)) == Key(Trunc16(c.num), true)
    ensures FrameOf(c, x).dataType == (if c.kind == 5 then 2 else 3) && FrameOf(c, x).data == c.data
  {
  }

  /** The loop's frames are not in each other's way: equal numbers mean equal
      bytes, and up to 65536 numbers stay apart in 16 bits. */
  lemma FramesAreSeparate(calls: seq<VideoCall>, xs: seq<Setting>)
    requires |xs| == |calls| && AllInCall(xs)
    requires Counted(calls, 0, []) && FramesFit(calls) && |FirstSends(calls, 0)| <= 65536
    ensures Separate(FramesOf(calls, xs))
  {
    var fs, firsts := FramesOf(calls, xs), FirstSends(calls, 0);
    forall i, k | 0 <= i < |fs| && 0 <= k < |fs| && FrameKey(fs[i]) == FrameKey(fs[k])
      ensures fs[i].data == fs[k].data
    {
      FrameIsOnWire(calls[i], xs[i]);
      FrameIsOnWire(calls[k], xs[k]);
      FirstsExplain(calls, 0, [], i);
      FirstsExplain(calls, 0, [], k);
    }
  }

  lemma AllThere(calls: seq<VideoCall>, xs: seq<Setting>, dgs: seq<seq<byte>>)
    requires |xs| == |calls| && AllInCall(xs) && FramesFit(calls) && Carries(dgs, FramesOf(calls, xs))
    ensures forall i :: 0 <= i < |calls| ==> OnWire(FramesOf(calls, xs)[i]) && AllArrived(FramesOf(calls, xs)[i], dgs)
  {
    var fs := FramesOf(calls, xs);
    forall i | 0 <= i < |calls|
      ensures OnWire(fs[i]) && AllArrived(fs[i], dgs)
    {
      FrameIsOnWire(calls[i], xs[i]);
      forall j | 1 <= j <= fs[i].Total()
        ensures Arrived(fs[i], dgs, j)
      {
        FragmentCarries(fs[i], j);
      }
    }
  }

  /** Whatever the loop sends plays back as its frames, each once. */
  lemma PlaysBack(calls: seq<VideoCall>, xs: seq<Setting>, dgs: seq<seq<byte>>)
    requires |xs| == |calls| && AllInCall(xs)
    requires Counted(calls, 0, []) && FramesFit(calls) && |FirstSends(calls, 0)| <= 65536
    requires Carries(dgs, FramesOf(calls, xs))
    ensures Play(Receive(dgs), |FirstSends(calls, 0)|) == Delivered(calls, 0)
  {
    var fs, firsts := FramesOf(calls, xs), FirstSends(calls, 0);
    FramesAreSeparate(calls, xs);
    forall m | 0 <= m < |firsts|
      ensures Output(Receive(dgs), Key(Trunc16(m + 1), true)) == Some(Datas(firsts)[m])
    {
      var i := FirstsNumbered(calls, 0, [], m);
      FrameIsOnWire(calls[i], xs[i]);
      AllThere(calls, xs, dgs);
      OneCutWins(fs, dgs, i);
    }
    PlayIsConcat(Receive(dgs), Datas(firsts), |firsts|);
    assert Datas(firsts)[..|firsts|] == Datas(firsts);
    DeliveredIsFirsts(calls, 0);
  }

  /** What has to hold of a stream and of the traffic: frames that fit the frame
      buffer, at most 65536 of them, all datagrams there in any arrangement. */
  ghost predicate Transmitted(d: seq<byte>, xs: seq<Setting>, dgs: seq<seq<byte>>)
    requires |d| > 0 && PrefixAt(d, 0) != 0
  {
    var calls := Calls(d, d, Start(0));
    && |xs| == |calls| && AllInCall(xs)
    && (forall i :: 0 <= i < |calls| ==> |calls[i].data| <= FRAME_CAP)
    && |FirstSends(calls, 0)| <= 65536
    && Carries(dgs, FramesOf(calls, xs))
  }

  function Played(d: seq<byte>, dgs: seq<seq<byte>>): seq<byte> {
    Play(Receive(dgs), |FirstSends(Calls(d, d, Start(0)), 0)|)
  }

  lemma {:induction false} CountedFits(calls: seq<VideoCall>, last: nat, held: seq<byte>)
    requires Counted(calls, last, held)
    ensures forall i :: 0 <= i < |calls| ==> calls[i].data != []
  {
    if calls != [] {
      CountedFits(calls[1..], calls[0].num, calls[0].data);
    }
  }

  /**
   * End to end, for any stream that starts on a start code: it is split and framed
   * from two handles, sent frame by frame under whatever status and cut into
   * datagrams. From any arrangement of all the datagrams, with any repetitions, the
   * receiver plays back the stream up to its last bytes: as many are missing at the
   * end as the non-slice units that follow a slice have.
   */
  lemma EndToEnd(d: seq<byte>, xs: seq<Setting>, dgs: seq<seq<byte>>)
    requires |d| > 0 && PrefixAt(d, 0) != 0 && Transmitted(d, xs, dgs)
    ensures Played(d, dgs) == Kept(d)
  {
    var calls := Calls(d, d, Start(0));
    LoopCounts(d, Start(0));
    CountedFits(calls, 0, []);
    PlaysBack(calls, xs, dgs);
    WhatIsDelivered(d);
  }

  /** The far side has the stream exactly when the stream has a slice (type 1 or 5)
      and all its other units come before the first one. */
  lemma EndToEndWhole(d: seq<byte>, xs: seq<Setting>, dgs: seq<seq<byte>>)
    requires |d| > 0 && PrefixAt(d, 0) != 0 && Transmitted(d, xs, dgs)
    ensures var hs := Heads(Split(d, 0), 0);
            Played(d, dgs) == d <==>
              && (exists i :: 0 <= i < |hs| && hs[i] as int % 32 in {1, 5})
              && (forall i, j :: 0 <= i < j < |hs| && hs[i] as int % 32 in {1, 5} ==> hs[j] as int % 32 in {1, 5})
  {
    EndToEnd(d, xs, dgs);
    WhatIsDelivered(d);
    DeliversAll(d);
  }

  /** And a printable unit list with that property is split out of it again. */
  lemma EndToEndUnits(us: seq<Unit>, xs: seq<Setting>, dgs: seq<seq<byte>>)
    requires us != [] && Printable(us)
    requires exists i :: 0 <= i < |us| && Heads(us, 0)[i] as int % 32 in {1, 5}
    requires forall i, j :: 0 <= i < j < |us| && Heads(us, 0)[i] as int % 32 in {1, 5} ==> Heads(us, 0)[j] as int % 32 in {1, 5}
    requires OnBoundary(Serialise(us), 0) && |Serialise(us)| > 0 && Transmitted(Serialise(us), xs, dgs)
    ensures var out := Played(Serialise(us), dgs); OnBoundary(out, 0) && Split(out, 0) == us
  {
    RoundTrip(us);
    EndToEndWhole(Serialise(us), xs, dgs);
  }
}
