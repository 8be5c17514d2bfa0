/**
 * The receiving side, written as a specification: datagrams are put where their
 * header says, frame by frame. It is what the sender has to be the inverse of;
 * the library's own receiver (jni/udp.c) only hands audio on.
 */
module Reassembly {
  import opened Bytes
  import opened TalkPacket
  import opened Fragments

  datatype Key = Key(frameno: nat, video: bool)

  /** A frame being put together: its bytes so far and which fragments they are. */
  datatype Partial = Partial(canvas: seq<byte>, total: nat, seen: set<nat>)

  type State = map<Key, Partial>

  function KeyOf(t: TalkData): Key {
    Key(t.frameno, t.dataType != 1)
  }

  predicate Placeable(p: Partial, t: TalkData, body: seq<byte>) {
    && 1 <= t.curr <= t.total == p.total
    && |p.canvas| == t.framelen && |body| == t.datalen
    && 0 <= (t.curr - 1) * t.packLen && (t.curr - 1) * t.packLen + |body| <= t.framelen
  }

  function Place(p: Partial, t: TalkData, body: seq<byte>): Partial {
    if Placeable(p, t, body)
    then Partial(Splice(p.canvas, (t.curr - 1) * t.packLen, body), p.total, p.seen + {t.curr})
    else p
  }

  function Blank(t: TalkData): Partial {
    Partial(seq(t.framelen, _ => 0), t.total, {})
  }

  function Accept(st: State, dg: seq<byte>): State {
    if !IsTalk(dg) then st
    else
      var t := Parse(dg[9..77]);
      var k := KeyOf(t);
      st[k := Place(if k in st then st[k] else Blank(t), t, dg[77..])]
  }

  function Receive(dgs: seq<seq<byte>>): State {
    if dgs == [] then map[] else Accept(Receive(dgs[..|dgs| - 1]), dgs[|dgs| - 1])
  }

  predicate Complete(p: Partial) {
    forall j :: 1 <= j <= p.total ==> j in p.seen
  }

  function Output(st: State, k: Key): Option<seq<byte>> {
    if k in st && Complete(st[k]) then Some(st[k].canvas) else None
  }

  // ------------------------------------------------------------- one frame

  function FrameKey(f: Frame): Key {
    Key(Trunc16(f.num), f.dataType != 1)
  }

  /** Frames whose counters the header can hold: 1 to 65535 datagrams. */
  predicate OnWire(f: Frame) {
    f.Sendable() && 1 <= f.Total() <= 65535
  }

  /** dg is a datagram of a frame with f's number and another total: f sent again,
      cut to the other packet size. */
  predicate Rival(f: Frame, dg: seq<byte>)
    requires f.Sendable()
  {
    IsTalk(dg) && KeyOf(Parse(dg[9..77])) == FrameKey(f) && Parse(dg[9..77]).total != f.Total()
  }

  /** dg says it belongs to another frame, or is no talk datagram at all. */
  predicate Foreign(f: Frame, dg: seq<byte>) {
    IsTalk(dg) ==> KeyOf(Parse(dg[9..77])) != FrameKey(f)
  }

  /** The fields a datagram is placed by. */
  predicate SamePlace(t: TalkData, u: TalkData) {
    && KeyOf(t) == KeyOf(u) && t.framelen == u.framelen && t.total == u.total
    && t.curr == u.curr && t.datalen == u.datalen && (t.curr - 1) * t.packLen == (u.curr - 1) * u.packLen
  }

  /** dg carries fragment j of f. Time stamp, addresses and the kind of video
      frame may be other than f's own: a frame sent twice is still one frame. */
  predicate CarriesFragment(f: Frame, dg: seq<byte>, j: int)
    requires f.Sendable()
  {
    && 1 <= j <= f.Total() && IsTalk(dg)
    && SamePlace(Parse(dg[9..77]), Header(f, j)) && dg[77..] == Slice(f, j)
  }

  ghost predicate IsFragmentOf(f: Frame, dg: seq<byte>)
    requires f.Sendable()
  {
    exists j :: CarriesFragment(f, dg, j)
  }

  ghost predicate Arrived(f: Frame, dgs: seq<seq<byte>>, j: int)
    requires f.Sendable()
  {
    exists dg :: dg in dgs && CarriesFragment(f, dg, j)
  }

  ghost predicate AllArrived(f: Frame, dgs: seq<seq<byte>>)
    requires f.Sendable()
  {
    forall j :: 1 <= j <= f.Total() ==> Arrived(f, dgs, j)
  }

  /** p holds exactly the fragments of f that have arrived, each in its place. */
  ghost predicate Holds(f: Frame, p: Partial, dgs: seq<seq<byte>>)
    requires OnWire(f)
  {
    && |p.canvas| == |f.data| && p.total == f.Total()
    && (forall j :: j in p.seen <==> Arrived(f, dgs, j))
    && (forall j: nat :: 1 <= j && j in p.seen ==> InPlace(f, p.canvas, j))
  }

  predicate InPlace(f: Frame, canvas: seq<byte>, j: nat)
    requires f.Sendable() && j > 0 && |canvas| == |f.data|
  {
    CutGrows(f, j - 1, j);
    canvas[Cut(f, j - 1)..Cut(f, j)] == Slice(f, j)
  }

  lemma FrameFitsHeader(f: Frame, j: nat)
    requires OnWire(f) && 1 <= j <= f.Total()
    ensures var t := Header(f, j);
            && t.framelen == |f.data| && t.total == f.Total() && t.curr == j && t.datalen == |Slice(f, j)|
            && (j - 1) * t.packLen == Cut(f, j - 1) && KeyOf(t) == FrameKey(f)
  {
    if f.IsVideo() {
      SliceLength(f, j);
      SliceLength(f, f.Total());
    }
  }

  lemma FragmentCarries(f: Frame, j: nat)
    requires OnWire(f) && 1 <= j <= f.Total()
    ensures CarriesFragment(f, Fragment(f, j), j)
  {
    DatagramReads(Header(f, j), Slice(f, j));
  }

  lemma CarriesOne(f: Frame, dg: seq<byte>, i: int, j: int)
    requires OnWire(f) && CarriesFragment(f, dg, i) && CarriesFragment(f, dg, j)
    ensures i == j
  {
    FrameFitsHeader(f, i);
    FrameFitsHeader(f, j);
  }

  lemma OthersStayPut(f: Frame, canvas: seq<byte>, i: nat, j: nat)
    requires f.Sendable() && i > 0 && j > 0 && i != j && |canvas| == |f.data|
    requires InPlace(f, canvas, i)
    ensures Cut(f, j - 1) + |Slice(f, j)| <= |canvas|
    ensures InPlace(f, Splice(canvas, Cut(f, j - 1), Slice(f, j)), i)
  {
    CutGrows(f, j - 1, j);
    CutGrows(f, i - 1, i);
    if i < j {
      CutGrows(f, i, j - 1);
    } else {
      CutGrows(f, j, i - 1);
    }
    SpliceElsewhere(canvas, Cut(f, j - 1), Slice(f, j), Cut(f, i - 1), Cut(f, i));
  }

  lemma SpliceElsewhere(dst: seq<byte>, at: nat, src: seq<byte>, lo: nat, hi: nat)
    requires at + |src| <= |dst| && lo <= hi <= |dst| && (hi <= at || at + |src| <= lo)
    ensures Splice(dst, at, src)[lo..hi] == dst[lo..hi]
  {
  }

  lemma SpliceHere(dst: seq<byte>, at: nat, src: seq<byte>)
    requires at + |src| <= |dst|
    ensures Splice(dst, at, src)[at..at + |src|] == src
  {
  }

  lemma ArrivedAfter(f: Frame, dgs: seq<seq<byte>>, dg: seq<byte>, j: int)
    requires OnWire(f) && CarriesFragment(f, dg, j)
    ensures forall i :: Arrived(f, dgs + [dg], i) <==> i == j || Arrived(f, dgs, i)
  {
    forall i
      ensures Arrived(f, dgs + [dg], i) <==> i == j || Arrived(f, dgs, i)
    {
      assert forall x :: x in dgs + [dg] <==> x in dgs || x == dg;
      if CarriesFragment(f, dg, i) {
        CarriesOne(f, dg, i, j);
      }
      if i == j {
        assert dg in dgs + [dg];
      } else if Arrived(f, dgs, i) {
        var x :| x in dgs && CarriesFragment(f, x, i);
        assert x in dgs + [dg];
      }
    }
  }

  lemma PlacedAlike(p: Partial, t: TalkData, u: TalkData, body: seq<byte>)
    requires SamePlace(t, u)
    ensures Place(p, t, body) == Place(p, u, body) && Blank(t) == Blank(u)
  {
  }

  lemma PlacedIs(f: Frame, p: Partial, j: nat)
    requires OnWire(f) && 1 <= j <= f.Total() && |p.canvas| == |f.data| && p.total == f.Total()
    ensures Cut(f, j - 1) + |Slice(f, j)| == Cut(f, j) <= |p.canvas|
    ensures Place(p, Header(f, j), Slice(f, j)) ==
              Partial(Splice(p.canvas, Cut(f, j - 1), Slice(f, j)), f.Total(), p.seen + {j})
  {
    FrameFitsHeader(f, j);
  }

  /** Putting fragment j down keeps Holds, with j arrived. */
  lemma PlaceFragment(f: Frame, p: Partial, dgs: seq<seq<byte>>, dg: seq<byte>, j: nat)
    requires OnWire(f) && CarriesFragment(f, dg, j) && Holds(f, p, dgs)
    ensures Holds(f, Place(p, Header(f, j), Slice(f, j)), dgs + [dg])
  {
    PlacedIs(f, p, j);
    var p' := Place(p, Header(f, j), Slice(f, j));
    SpliceHere(p.canvas, Cut(f, j - 1), Slice(f, j));
    forall i: nat | 1 <= i && i in p'.seen
      ensures InPlace(f, p'.canvas, i)
    {
      if i != j {
        OthersStayPut(f, p.canvas, i, j);
      }
    }
    ArrivedAfter(f, dgs, dg, j);
  }

  lemma NothingYet(f: Frame, dgs: seq<seq<byte>>, t: TalkData)
    requires OnWire(f) && t.framelen == |f.data| && t.total == f.Total()
    requires forall j :: !Arrived(f, dgs, j)
    ensures Holds(f, Blank(t), dgs)
  {
  }

  lemma {:induction false} CanvasPrefix(f: Frame, canvas: seq<byte>, n: nat)
    requires f.Sendable() && |canvas| == |f.data|
    requires forall j: nat :: 1 <= j <= n ==> InPlace(f, canvas, j)
    ensures canvas[..Cut(f, n)] == f.data[..Cut(f, n)]
  {
    if n == 0 {
      CutEnds(f);
    } else {
      CanvasPrefix(f, canvas, n - 1);
      var a, b := Cut(f, n - 1), Cut(f, n);
      CutGrows(f, n - 1, n);
      assert InPlace(f, canvas, n);
      assert canvas[..b] == canvas[..a] + canvas[a..b];
      assert f.data[..b] == f.data[..a] + f.data[a..b];
    }
  }

  /** The state of one frame after any traffic. Its entry is the frame's own as
      cut, and then it holds what has arrived, or has another cut's total. */
  ghost predicate Tracked(f: Frame, st: State, dgs: seq<seq<byte>>)
    requires OnWire(f)
  {
    if FrameKey(f) in st then st[FrameKey(f)].total == f.Total() ==> Holds(f, st[FrameKey(f)], dgs)
    else forall j :: !Arrived(f, dgs, j)
  }

  /** How Accept changes the entry of the datagram's key. */
  lemma Accepted(st: State, dg: seq<byte>, u: TalkData)
    requires IsTalk(dg) && SamePlace(Parse(dg[9..77]), u)
    ensures var k, st' := KeyOf(u), Accept(st, dg);
            k in st' && st'[k] == Place(if k in st then st[k] else Blank(u), u, dg[77..])
  {
    PlacedAlike(if KeyOf(u) in st then st[KeyOf(u)] else Blank(u), Parse(dg[9..77]), u, dg[77..]);
  }

  lemma TrackOwn(f: Frame, st: State, dgs: seq<seq<byte>>, dg: seq<byte>, j: nat)
    requires OnWire(f) && CarriesFragment(f, dg, j) && Tracked(f, st, dgs)
    ensures Tracked(f, Accept(st, dg), dgs + [dg])
  {
    var k := FrameKey(f);
    FrameFitsHeader(f, j);
    Accepted(st, dg, Header(f, j));
    if k !in st {
      NothingYet(f, dgs, Header(f, j));
      PlaceFragment(f, Blank(Header(f, j)), dgs, dg, j);
    } else if st[k].total == f.Total() {
      PlaceFragment(f, st[k], dgs, dg, j);
    }
  }

  lemma TrackRival(f: Frame, st: State, dgs: seq<seq<byte>>, dg: seq<byte>)
    requires OnWire(f) && Rival(f, dg) && Tracked(f, st, dgs)
    ensures Tracked(f, Accept(st, dg), dgs + [dg])
  {
    Accepted(st, dg, Parse(dg[9..77]));
    SameArrivals(f, dgs, dg);
    var k := FrameKey(f);
    if k in st && st[k].total == f.Total() {
      HoldsStill(f, st[k], dgs, dg);
    }
  }

  lemma TrackForeign(f: Frame, st: State, dgs: seq<seq<byte>>, dg: seq<byte>)
    requires OnWire(f) && Foreign(f, dg) && Tracked(f, st, dgs)
    ensures Tracked(f, Accept(st, dg), dgs + [dg])
  {
    SameArrivals(f, dgs, dg);
    var k := FrameKey(f);
    if k in st && st[k].total == f.Total() {
      HoldsStill(f, st[k], dgs, dg);
    }
  }

  lemma HoldsStill(f: Frame, p: Partial, dgs: seq<seq<byte>>, dg: seq<byte>)
    requires OnWire(f) && Holds(f, p, dgs) && (Rival(f, dg) || Foreign(f, dg))
    ensures Holds(f, p, dgs + [dg])
  {
    SameArrivals(f, dgs, dg);
  }

  ghost predicate Concerns(f: Frame, dg: seq<byte>)
    requires f.Sendable()
  {
    IsFragmentOf(f, dg) || Rival(f, dg) || Foreign(f, dg)
  }

  /** After any traffic, in which the frame may also come cut to another size. */
  lemma {:induction false} Tracks(f: Frame, dgs: seq<seq<byte>>)
    requires OnWire(f) && forall dg :: dg in dgs ==> Concerns(f, dg)
    ensures Tracked(f, Receive(dgs), dgs)
    decreases |dgs|
  {
    if dgs != [] {
      var before, dg := dgs[..|dgs| - 1], dgs[|dgs| - 1];
      assert dgs == before + [dg];
      Tracks(f, before);
      assert Concerns(f, dg);
      if Rival(f, dg) {
        TrackRival(f, Receive(before), before, dg);
      } else if Foreign(f, dg) {
        TrackForeign(f, Receive(before), before, dg);
      } else {
        var j :| CarriesFragment(f, dg, j);
        TrackOwn(f, Receive(before), before, dg, j);
      }
    }
  }

  lemma SameArrivals(f: Frame, before: seq<seq<byte>>, dg: seq<byte>)
    requires OnWire(f) && (Rival(f, dg) || Foreign(f, dg))
    ensures forall j :: Arrived(f, before + [dg], j) <==> Arrived(f, before, j)
  {
    forall j
      ensures Arrived(f, before + [dg], j) <==> Arrived(f, before, j)
    {
      assert forall x :: x in before + [dg] <==> x in before || x == dg;
      if 1 <= j <= f.Total() {
        FrameFitsHeader(f, j);
      }
      if Arrived(f, before, j) {
        var x :| x in before && CarriesFragment(f, x, j);
        assert x in before + [dg];
      }
    }
  }

  predicate OfKey(k: Key, dg: seq<byte>) {
    IsTalk(dg) && KeyOf(Parse(dg[9..77])) == k
  }

  lemma {:induction false} KeyIsThere(dgs: seq<seq<byte>>, m: nat)
    requires m < |dgs| && IsTalk(dgs[m])
    ensures KeyOf(Parse(dgs[m][9..77])) in Receive(dgs)
    decreases |dgs|
  {
    if m < |dgs| - 1 {
      KeyIsThere(dgs[..|dgs| - 1], m);
    }
  }

  /** The first datagram of a key settles how many there are of the frame. */
  lemma {:induction false} FirstSettles(dgs: seq<seq<byte>>, k: Key) returns (m: nat)
    requires k in Receive(dgs)
    ensures m < |dgs| && OfKey(k, dgs[m]) && Parse(dgs[m][9..77]).total == Receive(dgs)[k].total
    ensures forall i :: 0 <= i < m ==> !OfKey(k, dgs[i])
    decreases |dgs|
  {
    var before := dgs[..|dgs| - 1];
    if k in Receive(before) {
      m := FirstSettles(before, k);
    } else {
      m := |before|;
      forall i | 0 <= i < m
        ensures !OfKey(k, dgs[i])
      {
        if OfKey(k, before[i]) {
          KeyIsThere(before, i);
        }
      }
    }
  }

  /** When the entry is the frame's as cut, it is complete once all has arrived. */
  lemma OutputOfCut(f: Frame, dgs: seq<seq<byte>>)
    requires OnWire(f) && forall dg :: dg in dgs ==> Concerns(f, dg)
    requires FrameKey(f) in Receive(dgs) && Receive(dgs)[FrameKey(f)].total == f.Total()
    ensures Output(Receive(dgs), FrameKey(f)) == if AllArrived(f, dgs) then Some(f.data) else None
  {
    Tracks(f, dgs);
    var p := Receive(dgs)[FrameKey(f)];
    assert Complete(p) <==> AllArrived(f, dgs);
    if Complete(p) {
      CanvasPrefix(f, p.canvas, f.Total());
      CutEnds(f);
      assert p.canvas[..|f.data|] == p.canvas && f.data[..|f.data|] == f.data;
    }
  }

  /** Reassembly inverts fragmentation: whatever the order, the repetitions and
      the traffic of other frames, the frame comes out exactly when each of its
      fragments has arrived, and it comes out unchanged. */
  lemma Reassembles(f: Frame, dgs: seq<seq<byte>>)
    requires OnWire(f)
    requires forall dg :: dg in dgs ==> IsFragmentOf(f, dg) || Foreign(f, dg)
    ensures Output(Receive(dgs), FrameKey(f)) == if AllArrived(f, dgs) then Some(f.data) else None
  {
    Tracks(f, dgs);
    if FrameKey(f) in Receive(dgs) {
      var m := FirstSettles(dgs, FrameKey(f));
      OwnTotal(f, dgs[m]);
      OutputOfCut(f, dgs);
    } else {
      assert !Arrived(f, dgs, 1);
    }
  }

  lemma OwnTotal(f: Frame, dg: seq<byte>)
    requires OnWire(f) && IsFragmentOf(f, dg)
    ensures IsTalk(dg) && Parse(dg[9..77]).total == f.Total()
  {
    var j :| CarriesFragment(f, dg, j);
    FrameFitsHeader(f, j);
  }

  // ----------------------------------------------------------- many frames

  /** No two of the frames are in each other's way: those with one key are one
      frame sent again, perhaps later, perhaps under another type of video unit,
      perhaps cut to another packet size. */
  predicate Separate(fs: seq<Frame>) {
    forall i, k :: 0 <= i < |fs| && 0 <= k < |fs| && FrameKey(fs[i]) == FrameKey(fs[k]) ==> fs[i].data == fs[k].data
  }

  /** dg is some datagram of one of the frames. */
  ghost predicate SentBy(fs: seq<Frame>, dg: seq<byte>) {
    exists i, j :: 0 <= i < |fs| && OnWire(fs[i]) && 1 <= j <= fs[i].Total() && dg == Fragment(fs[i], j)
  }

  lemma OneFragment(n: nat)
    requires n > 0 && CeilDiv(n, VIDEOPACKDATALEN) == CeilDiv(n, 2 * VIDEOPACKDATALEN)
    ensures CeilDiv(n, VIDEOPACKDATALEN) == 1
  {
    HalfAsMany(n);
  }

  lemma SameTotalSameSize(f: Frame, g: Frame)
    requires f.Sendable() && g.Sendable() && f.data == g.data && f.Total() == g.Total() > 1
    ensures f.IsVideo() && g.IsVideo() && f.packLen == g.packLen
  {
    if f.packLen != g.packLen {
      OneFragment(|f.data|);
    }
  }

  lemma SameCuts(f: Frame, g: Frame, j: nat)
    requires f.Sendable() && g.Sendable() && f.data == g.data && f.Total() == g.Total() && j <= f.Total()
    ensures Cut(f, j) == Cut(g, j)
  {
    if f.Total() > 1 {
      SameTotalSameSize(f, g);
    } else {
      CutEnds(f);
      CutEnds(g);
      assert j == 0 || j == f.Total();
    }
  }

  /** Two cuts of one frame into equally many datagrams cut it alike. */
  lemma SameTotalSameCut(f: Frame, g: Frame, j: nat)
    requires OnWire(f) && OnWire(g) && FrameKey(f) == FrameKey(g) && f.data == g.data
    requires f.Total() == g.Total() && 1 <= j <= f.Total()
    ensures SamePlace(Header(g, j), Header(f, j)) && Slice(f, j) == Slice(g, j)
  {
    SameCuts(f, g, j - 1);
    SameCuts(f, g, j);
    FrameFitsHeader(f, j);
    FrameFitsHeader(g, j);
  }

  lemma OwnRivalOrForeign(f: Frame, g: Frame, j: nat)
    requires OnWire(f) && OnWire(g) && 1 <= j <= g.Total()
    requires FrameKey(f) == FrameKey(g) ==> f.data == g.data
    ensures var dg := Fragment(g, j);
            if FrameKey(f) != FrameKey(g) then Foreign(f, dg)
            else if f.Total() != g.Total() then Rival(f, dg)
            else CarriesFragment(f, dg, j)
  {
    FragmentCarries(g, j);
    FrameFitsHeader(g, j);
    if FrameKey(f) == FrameKey(g) && f.Total() == g.Total() {
      SameTotalSameCut(f, g, j);
    }
  }

  lemma AllConcern(fs: seq<Frame>, dgs: seq<seq<byte>>, i: nat)
    requires i < |fs| && OnWire(fs[i]) && Separate(fs) && forall dg :: dg in dgs ==> SentBy(fs, dg)
    ensures forall dg :: dg in dgs ==> Concerns(fs[i], dg)
  {
    forall dg | dg in dgs
      ensures Concerns(fs[i], dg)
    {
      var n, j :| 0 <= n < |fs| && OnWire(fs[n]) && 1 <= j <= fs[n].Total() && dg == Fragment(fs[n], j);
      OwnRivalOrForeign(fs[i], fs[n], j);
    }
  }

  /** Which of the cuts of a frame the receiver goes by: the one its first datagram
      to arrive, dgs[m], belongs to. */
  lemma CutOf(fs: seq<Frame>, dgs: seq<seq<byte>>, k: Key) returns (n: nat, m: nat)
    requires (forall dg :: dg in dgs ==> SentBy(fs, dg)) && k in Receive(dgs)
    ensures n < |fs| && OnWire(fs[n]) && FrameKey(fs[n]) == k && Receive(dgs)[k].total == fs[n].Total()
    ensures m < |dgs| && IsFragmentOf(fs[n], dgs[m]) && forall i :: 0 <= i < m ==> !OfKey(k, dgs[i])
  {
    m := FirstSettles(dgs, k);
    assert SentBy(fs, dgs[m]);
    var o, j :| 0 <= o < |fs| && OnWire(fs[o]) && 1 <= j <= fs[o].Total() && dgs[m] == Fragment(fs[o], j);
    FragmentCarries(fs[o], j);
    FrameFitsHeader(fs[o], j);
    n := o;
  }

  /** Any mixture of the datagrams of frames that differ in frame number modulo
      65536, or in being audio, or not at all: the receiver goes by one cut of each
      frame, and the frame is recovered as soon as that cut's fragments are all
      there, whatever else is. */
  lemma Interleaved(fs: seq<Frame>, dgs: seq<seq<byte>>, i: nat)
    requires i < |fs| && OnWire(fs[i]) && Separate(fs)
    requires forall dg :: dg in dgs ==> SentBy(fs, dg)
    ensures var st, k := Receive(dgs), FrameKey(fs[i]);
            if k in st && st[k].total == fs[i].Total()
            then Output(st, k) == if AllArrived(fs[i], dgs) then Some(fs[i].data) else None
            else k !in st ==> Output(st, k) == None && !AllArrived(fs[i], dgs)
  {
    AllConcern(fs, dgs, i);
    if FrameKey(fs[i]) in Receive(dgs) {
      if Receive(dgs)[FrameKey(fs[i])].total == fs[i].Total() {
        OutputOfCut(fs[i], dgs);
      }
    } else {
      Tracks(fs[i], dgs);
      assert !Arrived(fs[i], dgs, 1);
    }
  }

  /** Of a frame sent in one cut only nothing else is needed. */
  lemma OneCutOnly(fs: seq<Frame>, dgs: seq<seq<byte>>, i: nat)
    requires i < |fs| && OnWire(fs[i]) && Separate(fs) && (forall dg :: dg in dgs ==> SentBy(fs, dg))
    requires forall n :: 0 <= n < |fs| && OnWire(fs[n]) && FrameKey(fs[n]) == FrameKey(fs[i]) ==> fs[n].Total() == fs[i].Total()
    ensures Output(Receive(dgs), FrameKey(fs[i])) == if AllArrived(fs[i], dgs) then Some(fs[i].data) else None
  {
    Interleaved(fs, dgs, i);
    if FrameKey(fs[i]) in Receive(dgs) {
      var n, m := CutOf(fs, dgs, FrameKey(fs[i]));
    }
  }

  /** A frame that is there whole in every cut it was sent in is recovered. */
  lemma OneCutWins(fs: seq<Frame>, dgs: seq<seq<byte>>, i: nat)
    requires i < |fs| && OnWire(fs[i]) && Separate(fs) && (forall dg :: dg in dgs ==> SentBy(fs, dg))
    requires forall n :: 0 <= n < |fs| && FrameKey(fs[n]) == FrameKey(fs[i]) ==> OnWire(fs[n]) && AllArrived(fs[n], dgs)
    ensures Output(Receive(dgs), FrameKey(fs[i])) == Some(fs[i].data)
  {
    Interleaved(fs, dgs, i);
    var n, m := CutOf(fs, dgs, FrameKey(fs[i]));
    Interleaved(fs, dgs, n);
  }
}
