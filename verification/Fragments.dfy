/** How qsa_send_video and qsa_send_audio cut a frame into datagrams. */
module Fragments {
  import opened Bytes
  import opened TalkPacket

  const VIDEOPACKDATALEN: nat := 1350
  const AUDIOPACKDATALEN: nat := 1200

  const CB_ST_TALKING: int := 5

  /** A frame on its way out. A video frame is cut every packLen bytes; an audio
      frame (data type 1) is one piece whatever its packLen says. */
  datatype Frame = Frame(id: Identity, timestamp: nat, dataType: nat, num: int, packLen: nat, data: seq<byte>) {
    predicate IsVideo() {
      dataType in {2, 3} && packLen in {VIDEOPACKDATALEN, 2 * VIDEOPACKDATALEN}
    }

    predicate IsAudio() {
      dataType == 1 && |data| <= 1523 && packLen <= AUDIOPACKDATALEN
    }

    predicate Sendable() {
      id.Sized() && timestamp < 0x1_0000_0000 && (IsVideo() || IsAudio())
    }

    /** Number of datagrams: ceil(length / packLen), or one. */
    function Total(): (n: nat)
      requires IsVideo() || IsAudio()
    {
      if dataType == 1 then 1 else CeilDiv(|data|, packLen)
    }
  }

  function CeilDiv(n: nat, p: nat): (k: nat)
    requires p > 0
  {
    if n % p == 0 then n / p else n / p + 1
  }

  function Min(a: nat, b: nat): nat {
    if a <= b then a else b
  }

  /** Bytes of data before fragment j + 1. */
  function Cut(f: Frame, j: nat): (k: nat)
    requires f.Sendable()
    ensures k <= |f.data|
  {
    if f.dataType == 1 then (if j == 0 then 0 else |f.data|)
    else Min(j * f.packLen, |f.data|)
  }

  lemma CutGrows(f: Frame, i: nat, j: nat)
    requires f.Sendable() && i <= j
    ensures Cut(f, i) <= Cut(f, j)
  {
  }

  /** Fragment j, counted from 1. */
  function Slice(f: Frame, j: nat): (s: seq<byte>)
    requires f.Sendable() && j > 0
    ensures |s| == Cut(f, j) - Cut(f, j - 1)
  {
    CutGrows(f, j - 1, j);
    f.data[Cut(f, j - 1)..Cut(f, j)]
  }

  /** A fragment is packLen bytes long except the last, and never empty. */
  lemma SliceLength(f: Frame, j: nat)
    requires f.Sendable() && f.IsVideo() && 1 <= j <= f.Total()
    ensures Cut(f, j - 1) == (j - 1) * f.packLen < |f.data|
    ensures |Slice(f, j)| == if j < f.Total() then f.packLen else |f.data| - (j - 1) * f.packLen
    ensures 0 < |Slice(f, j)| <= f.packLen
  {
    if f.packLen == VIDEOPACKDATALEN {
    } else {
      assert f.packLen == 2 * VIDEOPACKDATALEN;
    }
  }

  lemma CutEnds(f: Frame)
    requires f.Sendable()
    ensures Cut(f, 0) == 0 && Cut(f, f.Total()) == |f.data|
  {
    if f.packLen == VIDEOPACKDATALEN {
    } else if f.IsVideo() {
      assert f.packLen == 2 * VIDEOPACKDATALEN;
    }
  }

  /** The 16- and 32-bit header fields fragment j goes out with. */
  function Header(f: Frame, j: nat): (t: TalkData)
    requires f.Sendable() && j > 0
    ensures t.Fits()
  {
    TalkData(f.id, f.timestamp, f.dataType, Trunc16(f.num), Trunc32(|f.data|),
             Trunc16(f.Total()), Trunc16(j), Trunc16(|Slice(f, j)|), f.packLen)
  }

  function Fragment(f: Frame, j: nat): seq<byte>
    requires f.Sendable() && j > 0
  {
    Datagram(Header(f, j), Slice(f, j))
  }

  function FragmentsUpTo(f: Frame, n: nat): (dgs: seq<seq<byte>>)
    requires f.Sendable()
    ensures |dgs| == n
  {
    seq(n, i requires 0 <= i < n => Fragment(f, i + 1))
  }

  function AllFragments(f: Frame): seq<seq<byte>>
    requires f.Sendable()
  {
    FragmentsUpTo(f, f.Total())
  }

  /** Where the sender's loop cuts fragment j of total: every packLen bytes, the
      last one at the end of the frame. */
  function CutFrom(header: TalkData, j: nat): int {
    (j - 1) * header.packLen
  }

  function CutTo(header: TalkData, length: nat, total: nat, j: nat): int {
    if j == total then length else CutFrom(header, j) + header.packLen
  }

  /** Each cut lies inside the frame and its length fits the 16-bit field. */
  ghost predicate Cuttable(header: TalkData, length: nat, total: nat) {
    && header.Fits()
    && forall j :: 1 <= j <= total ==>
         0 <= CutFrom(header, j) < CutTo(header, length, total, j) <= length && CutTo(header, length, total, j) - CutFrom(header, j) < 0x1_0000
  }

  ghost function CutFragment(header: TalkData, data: seq<byte>, length: nat, total: nat, j: nat): seq<byte>
    requires Cuttable(header, length, total) && length <= |data| && 1 <= j <= total
  {
    var from, upto := CutFrom(header, j), CutTo(header, length, total, j);
    Datagram(header.(curr := Trunc16(j), datalen := upto - from), data[from..upto])
  }

  lemma CutIs(f: Frame, data: seq<byte>, header: TalkData, j: nat, from: int, upto: int)
    requires f.Sendable() && f.IsVideo() && f.data <= data && 1 <= j <= f.Total() && header.packLen == f.packLen
    requires from == CutFrom(header, j) && upto == CutTo(header, |f.data|, f.Total(), j)
    ensures 0 <= from < upto <= |f.data| && upto - from < 0x1_0000
    ensures data[from..upto] == Slice(f, j)
  {
    SliceLength(f, j);
    assert from == Cut(f, j - 1) && upto - from == |Slice(f, j)|;
    assert f.data[from..upto] == data[from..upto];
  }

  /** The sender's cuts are the fragments. */
  lemma CutsAreFragments(f: Frame, data: seq<byte>, header: TalkData)
    requires f.Sendable() && f.IsVideo() && f.data <= data
    requires header.Fits() && header == Header(f, 1).(curr := header.curr, datalen := header.datalen)
    ensures Cuttable(header, |f.data|, f.Total())
    ensures forall j :: 1 <= j <= f.Total() ==> CutFragment(header, data, |f.data|, f.Total(), j) == Fragment(f, j)
  {
    forall j | 1 <= j <= f.Total()
      ensures var from, upto := CutFrom(header, j), CutTo(header, |f.data|, f.Total(), j);
              0 <= from < upto <= |f.data| && upto - from < 0x1_0000 && data[from..upto] == Slice(f, j)
    {
      CutIs(f, data, header, j, CutFrom(header, j), CutTo(header, |f.data|, f.Total(), j));
    }
  }

  /** The frame qsa_send_video makes of its arguments under a status: the packet
      size is doubled for the caller once he talks. */
  function VideoFrame(status: int, id: Identity, now: nat, data: seq<byte>, num: int, frame_type: int): (f: Frame)
    requires id.Sized() && now < 0x1_0000_0000
    ensures f.Sendable() && f.IsVideo()
  {
    Frame(id, now, if frame_type == 5 then 2 else 3, num,
          if status == CB_ST_TALKING then 2 * VIDEOPACKDATALEN else VIDEOPACKDATALEN, data)
  }

  // ------------------------------------------------------- what the cut means

  function SlicesUpTo(f: Frame, n: nat): (ss: seq<seq<byte>>)
    requires f.Sendable()
    ensures |ss| == n
  {
    seq(n, i requires 0 <= i < n => Slice(f, i + 1))
  }

  lemma {:induction false} SlicesConcat(f: Frame, n: nat)
    requires f.Sendable()
    ensures Concat(SlicesUpTo(f, n)) == f.data[..Cut(f, n)]
  {
    if n > 0 {
      SlicesConcat(f, n - 1);
      assert SlicesUpTo(f, n) == SlicesUpTo(f, n - 1) + [Slice(f, n)];
      ConcatAppend(SlicesUpTo(f, n - 1), [Slice(f, n)]);
      assert [Slice(f, n)][1..] == [];
      assert Slice(f, n) + [] == Slice(f, n);
      CutGrows(f, n - 1, n);
    } else {
      CutEnds(f);
    }
  }

  /** In order, the slices of a frame are the frame: disjoint, without gaps. */
  lemma SlicesCover(f: Frame)
    requires f.Sendable()
    ensures Concat(SlicesUpTo(f, f.Total())) == f.data
  {
    SlicesConcat(f, f.Total());
    CutEnds(f);
  }

  function SumLengths(ss: seq<seq<byte>>): nat {
    if ss == [] then 0 else |ss[0]| + SumLengths(ss[1..])
  }

  lemma {:induction false} SumIsLength(ss: seq<seq<byte>>)
    ensures SumLengths(ss) == |Concat(ss)|
  {
    if ss != [] {
      SumIsLength(ss[1..]);
    }
  }

  /** The Datalen fields add up to Framelen. */
  lemma DatalensSum(f: Frame)
    requires f.Sendable()
    ensures SumLengths(SlicesUpTo(f, f.Total())) == |f.data|
  {
    SlicesCover(f);
    SumIsLength(SlicesUpTo(f, f.Total()));
  }

  /** The 16-bit counters: TotalPackage is the number of datagrams exactly up to
      65535 of them, and no two datagrams share a CurrPackage up to 65536. */
  lemma CountersExact(f: Frame)
    requires f.Sendable()
    ensures f.Total() > 0 ==> (Header(f, 1).total == f.Total() <==> f.Total() <= 65535)
    ensures (forall i, j :: 1 <= i < j <= f.Total() ==> Header(f, i).curr != Header(f, j).curr) <==> f.Total() <= 65536
  {
    if f.Total() > 65536 {
      assert Header(f, 1).curr == Header(f, 65537).curr;
    }
  }

  // ------------------------------------------------------------- coarsening

  /** The same frame cut at half the packet size. */
  function Finer(f: Frame): Frame {
    f.(packLen := VIDEOPACKDATALEN)
  }

  lemma HalfAsMany(n: nat)
    ensures CeilDiv(n, 2 * VIDEOPACKDATALEN) == CeilDiv(CeilDiv(n, VIDEOPACKDATALEN), 2)
  {
    var k := CeilDiv(n, VIDEOPACKDATALEN);
    assert (k - 1) * 1350 < n <= k * 1350 || n == k == 0;
  }

  lemma CoarseCut(f: Frame, j: nat)
    requires f.Sendable() && f.IsVideo() && f.packLen == 2 * VIDEOPACKDATALEN
    ensures Finer(f).Sendable() && Cut(f, j) == Cut(Finer(f), 2 * j)
  {
  }

  lemma CoarseTotals(f: Frame, j: nat)
    requires f.Sendable() && f.IsVideo() && f.packLen == 2 * VIDEOPACKDATALEN && 1 <= j <= f.Total()
    ensures f.Total() == CeilDiv(Finer(f).Total(), 2) && 2 * j - 1 <= Finer(f).Total() <= 2 * f.Total()
  {
    HalfAsMany(|f.data|);
  }

  lemma SliceInTwo(f: Frame, g: Frame, j: nat, a: nat, b: nat, c: nat)
    requires f.Sendable() && g.Sendable() && f.data == g.data && 1 <= j
    requires a == Cut(f, j - 1) == Cut(g, 2 * j - 2) && b == Cut(g, 2 * j - 1) && c == Cut(f, j) == Cut(g, 2 * j)
    ensures Slice(f, j) == Slice(g, 2 * j - 1) + Slice(g, 2 * j)
  {
    hide CeilDiv, Cut;
    CutGrows(g, 2 * j - 2, 2 * j - 1);
    CutGrows(g, 2 * j - 1, 2 * j);
    assert f.data[a..c] == f.data[a..b] + f.data[b..c];
  }

  /** A datagram at 2700 carries what two consecutive ones at 1350 do; the second
      of them may be missing at the end. */
  lemma Coarsening(f: Frame, j: nat)
    requires f.Sendable() && f.IsVideo() && f.packLen == 2 * VIDEOPACKDATALEN && 1 <= j <= f.Total()
    ensures f.Total() == CeilDiv(Finer(f).Total(), 2)
    ensures 2 * j - 1 <= Finer(f).Total() <= 2 * f.Total()
    ensures Slice(f, j) == Slice(Finer(f), 2 * j - 1)
                           + if 2 * j <= Finer(f).Total() then Slice(Finer(f), 2 * j) else []
  {
    hide CeilDiv, Cut, Slice;
    var g := Finer(f);
    CoarseTotals(f, j);
    CoarseCut(f, j - 1);
    CoarseCut(f, j);
    SliceInTwo(f, g, j, Cut(f, j - 1), Cut(g, 2 * j - 1), Cut(f, j));
    if g.Total() < 2 * j {
      CutEnds(g);
      CutGrows(g, 2 * j - 1, 2 * j);
      assert Slice(g, 2 * j) == [];
    }
  }

  // -------------------------------------------------- what the datagrams say

  lemma RoundedUp(n: nat, p: nat)
    requires p == 1350 || p == 2700
    ensures CeilDiv(n, p) == (n + p - 1) / p
  {
  }

  /** The nine bytes in front, read off one by one. */
  lemma HeadBytes(t: TalkData, body: seq<byte>)
    requires t.Fits()
    ensures var dg := Datagram(t, body); |dg| == 77 + |body| && dg[..9] == [81, 73, 85, 83, 72, 73, 150, 1, 7]
  {
    DatagramReads(t, body);
  }

  /** dgs are data cut every p bytes, as a reader of the wire sees it: the nine
      bytes in front, the header fields, the piece of data behind them. */
  predicate VideoDatagrams(dgs: seq<seq<byte>>, data: seq<byte>, p: nat, kind: nat, now: nat, num: int, id: Identity)
    requires p > 0
  {
    && |dgs| == (|data| + p - 1) / p
    && forall j :: 1 <= j <= |dgs| ==>
         VideoDatagram(dgs[j - 1], data, (j - 1) * p, if j < |dgs| then j * p else |data|, p, kind, now, num, id, |dgs|, j)
  }

  predicate VideoDatagram(dg: seq<byte>, data: seq<byte>, from: int, to: int, p: nat, kind: nat, now: nat, num: int,
                          id: Identity, total: nat, j: nat)
  {
    && |dg| >= 77 && dg[..9] == [81, 73, 85, 83, 72, 73, 150, 1, 7]
    && 0 <= from < to <= |data| && dg[77..] == data[from..to]
    && Parse(dg[9..77]) == TalkData(id, now, kind, num % 0x1_0000, |data| % 0x1_0000_0000,
                                    total % 0x1_0000, j % 0x1_0000, to - from, p)
  }

  /** Fragment j of a video frame, read back. */
  lemma FragmentSays(f: Frame, j: nat, from: nat, to: nat)
    requires f.Sendable() && f.IsVideo() && 1 <= j <= f.Total()
    requires from == (j - 1) * f.packLen && to == if j < f.Total() then j * f.packLen else |f.data|
    ensures VideoDatagram(Fragment(f, j), f.data, from, to, f.packLen, f.dataType, f.timestamp, f.num, f.id, f.Total(), j)
  {
    SliceLength(f, j);
    CutEnds(f);
    HeadBytes(Header(f, j), Slice(f, j));
    DatagramReads(Header(f, j), Slice(f, j));
    assert Cut(f, j) == to;
  }

  /** The fragments of a video frame, read back. */
  lemma FrameSays(f: Frame)
    requires f.Sendable() && f.IsVideo()
    ensures VideoDatagrams(AllFragments(f), f.data, f.packLen, f.dataType, f.timestamp, f.num, f.id)
  {
    hide CeilDiv, VideoDatagram;
    RoundedUp(|f.data|, f.packLen);
    var dgs, p, n := AllFragments(f), f.packLen, f.Total();
    forall j | 1 <= j <= n
      ensures VideoDatagram(dgs[j - 1], f.data, (j - 1) * p, if j < n then j * p else |f.data|, p,
                            f.dataType, f.timestamp, f.num, f.id, n, j)
    {
      FragmentSays(f, j, (j - 1) * p, if j < n then j * p else |f.data|);
    }
  }

  // ---------------------------------------------------------------- senders

  /** What a sender may report through cb_curr_opt. */
  datatype Report = Nothing | CallFail(status: int)

  lemma DatagramInBuffer(buf: seq<byte>, header: seq<byte>, body: seq<byte>)
    requires |header| == HEADER_SIZE && 77 + |body| <= |buf|
    ensures var out := Splice(Splice(buf, 9, header), 77, body);
            out[..77 + |body|] == buf[..9] + header + body && out[..9] == buf[..9]
  {
  }

  /** The globals the senders read, and currTime, which the video sender sets. */
  class Device {
    var status: int
    var address: seq<byte>      // local_config.address
    var locate_ip: seq<byte>
    var peerAddr: seq<byte>     // remote_info.Addr[0]
    var peerIP: seq<byte>       // remote_info.IP[0]
    var currTime: nat

    ghost predicate Valid()
      reads this
    {
      |address| == 20 && |locate_ip| == 4 && |peerAddr| == 21 && |peerIP| == 4
    }

    function Me(): Identity
      reads this
      requires Valid()
    {
      Identity(address, locate_ip, peerAddr[..20], peerIP)
    }

    constructor (address: seq<byte>, locate_ip: seq<byte>)
      requires |address| == 20 && |locate_ip| == 4
      ensures Valid() && status == 0
    {
      this.address, this.locate_ip, status, currTime := address, locate_ip, 0, 0;
      peerAddr, peerIP := seq(21, _ => 0), [0, 0, 0, 0];
    }

    /** Every datagram is built in the same buffer; what is emitted never holds
        bytes of an earlier one. */
    method SendVideo(data: seq<byte>, length: nat, frame_num: int, frame_type: int, nowTime: nat)
      returns (sent: seq<seq<byte>>, report: Report)
      requires Valid() && length <= |data| && nowTime < 0x1_0000_0000
      modifies `currTime
      ensures Valid() && currTime == nowTime
      ensures if status > 0 then report == Nothing && sent == AllFragments(VideoFrame(status, Me(), nowTime, data[..length], frame_num, frame_type))
              else report == CallFail(status) && sent == []
      ensures status > 0 ==>
                VideoDatagrams(sent, data[..length], if status == 5 then 2700 else 1350, if frame_type == 5 then 2 else 3,
                               nowTime, frame_num, Identity(address, locate_ip, peerAddr[..20], peerIP))
    {
      hide Cut, Slice, Image, Cuttable;
      var mpeg4_out := new byte[length + HEADER_SIZE + 20];
      currTime := nowTime;
      sent, report := [], Nothing;
      if status > 0 {
        CopyInto(mpeg4_out, 0, TALK_HEAD);
        assert mpeg4_out[..9] == TALK_HEAD;
        var talkdata := TalkData(Me(), nowTime, 0, Trunc16(frame_num), Trunc32(length), 0, 0, 0, 0);
        talkdata := talkdata.(dataType := if frame_type == 5 then 2 else 3);
        talkdata := talkdata.(packLen := if status == CB_ST_TALKING then VIDEOPACKDATALEN * 2 else VIDEOPACKDATALEN);
        var TotalPackage := if length % talkdata.packLen == 0 then length / talkdata.packLen
                            else length / talkdata.packLen + 1;
        talkdata := talkdata.(total := Trunc16(TotalPackage));

        ghost var f := VideoFrame(status, Me(), nowTime, data[..length], frame_num, frame_type);
        CutsAreFragments(f, data, talkdata);
        sent := SendFragments(data, length, mpeg4_out, talkdata, TotalPackage);
        assert sent == AllFragments(f);
        FrameSays(f);
      } else {
        report := CallFail(status);
      }
    }

    /** The frame a call of qsa_send_audio with these arguments sends. */
    ghost function AudioFrame(data: seq<byte>, num: int, nowTime: nat): (f: Frame)
      requires Valid() && nowTime < 0x1_0000_0000 && |data| <= 1523
      reads this
      ensures f.Sendable() && f.IsAudio()
    {
      Frame(Me(), nowTime, 1, num, if |data| < AUDIOPACKDATALEN then |data| else AUDIOPACKDATALEN, data)
    }

    /** The subcommand byte and the four addresses are only written when this side
        is the caller (status 5); otherwise they go out as the stack had them. */
    method SendAudio(data: seq<byte>, length: nat, frame_num: int, nowTime: nat, stack: TalkData)
      returns (sent: seq<seq<byte>>, report: Report)
      requires Valid() && length <= |data| && length <= 1523 && nowTime < 0x1_0000_0000 && stack.Fits()
      ensures if status > 0 then report == Nothing && |sent| == 1 && |sent[0]| == 77 + length
              else report == CallFail(status) && sent == []
      ensures status > 0 ==>
                var f := AudioFrame(data[..length], frame_num, nowTime);
                if status == 5 then sent == AllFragments(f)
                else Parse(sent[0][9..77]) == Header(f, 1).(id := stack.id) && sent[0][77..] == data[..length]
      ensures status > 0 ==>
                && sent[0][..8] == [81, 73, 85, 83, 72, 73, 150, 1] && (status == 5 ==> sent[0][8] == 7)
                && sent[0][77..] == data[..length]
                && var t := Parse(sent[0][9..77]);
                   && t.packLen == (if length < 1200 then length else 1200) && t.datalen == length && t.framelen == length
                   && t.total == 1 && t.curr == 1 && t.dataType == 1 && t.timestamp == nowTime && t.frameno == frame_num % 0x1_0000
                   && if status == 5 then
                        && t.id.hostAddr == address && t.id.hostIP == locate_ip
                        && t.id.assiAddr == peerAddr[..20] && t.id.assiIP == peerIP
                      else t.id == stack.id
    {
      hide Parse, Image, Cut, Slice, AllFragments;
      sent, report := [], Nothing;
      if status > 0 {
        var adpcm_out := new byte[1600];
        var talkdata := stack;
        CopyInto(adpcm_out, 0, PACKAGE_HEAD);
        adpcm_out[6] := VIDEOTALK;
        adpcm_out[7] := 1;
        if status == 5 {
          adpcm_out[8] := CALLUP;
          talkdata := talkdata.(id := Me());
          assert adpcm_out[..9] == TALK_HEAD;
        }
        talkdata := talkdata.(timestamp := nowTime, dataType := 1, frameno := Trunc16(frame_num));
        talkdata := talkdata.(framelen := Trunc32(length), total := 1, curr := 1, datalen := Trunc16(length));
        talkdata := talkdata.(packLen := if talkdata.datalen < AUDIOPACKDATALEN then Trunc16(length) else AUDIOPACKDATALEN);

        ghost var f := AudioFrame(data[..length], frame_num, nowTime);
        AudioIsOnePiece(f);
        assert talkdata == Header(f, 1).(id := talkdata.id);
        HeaderParts(adpcm_out[..9], Image(talkdata), f.data);
        HeaderRoundTrip(talkdata);
        var dg := Emit(adpcm_out, talkdata, data[..length]);
        sent := [dg];
      } else {
        report := CallFail(status);
      }
    }
  }

  lemma AudioIsOnePiece(f: Frame)
    requires f.Sendable() && f.IsAudio()
    ensures AllFragments(f) == [Datagram(Header(f, 1), f.data)] && Slice(f, 1) == f.data
  {
    assert f.Total() == 1 && Cut(f, 0) == 0 && Cut(f, 1) == |f.data|;
    assert f.data[0..|f.data|] == f.data;
    assert Slice(f, 1) == f.data;
    assert AllFragments(f)[0] == Fragment(f, 1);
  }

  lemma HeaderParts(a: seq<byte>, header: seq<byte>, body: seq<byte>)
    requires |a| == 9 && |header| == HEADER_SIZE
    ensures (a + header + body)[9..77] == header && (a + header + body)[77..] == body
  {
  }

  /** The loop over the fragments of one frame. */
  method SendFragments(data: seq<byte>, length: nat, mpeg4_out: array<byte>, header: TalkData, TotalPackage: nat)
    returns (sent: seq<seq<byte>>)
    requires Cuttable(header, length, TotalPackage) && length <= |data|
    requires mpeg4_out.Length == length + HEADER_SIZE + 20 && mpeg4_out[..9] == TALK_HEAD
    modifies mpeg4_out
    ensures |sent| == TotalPackage
    ensures forall j :: 1 <= j <= TotalPackage ==> sent[j - 1] == CutFragment(header, data, length, TotalPackage, j)
  {
    var talkdata := header;
    sent := [];
    for j := 1 to TotalPackage + 1
      invariant mpeg4_out[..9] == TALK_HEAD
      invariant talkdata == header.(curr := talkdata.curr, datalen := talkdata.datalen)
      invariant |sent| == j - 1
      invariant forall i :: 1 <= i < j ==> sent[i - 1] == CutFragment(header, data, length, TotalPackage, i)
    {
      var from := (j - 1) * talkdata.packLen;
      assert from == CutFrom(header, j);
      var dg;
      if j == TotalPackage {
        talkdata := talkdata.(curr := Trunc16(j), datalen := length - from);
        dg := Emit(mpeg4_out, talkdata, data[from..length]);
      } else {
        talkdata := talkdata.(curr := Trunc16(j), datalen := talkdata.packLen);
        dg := Emit(mpeg4_out, talkdata, data[from..from + talkdata.packLen]);
      }
      sent := sent + [dg];
    }
  }

  /** The two memcpy calls of one fragment and what UdpSendBuff is given. */
  method Emit(out: array<byte>, talkdata: TalkData, body: seq<byte>) returns (dg: seq<byte>)
    requires talkdata.Fits() && 77 + |body| <= out.Length
    modifies out
    ensures out[..9] == old(out[..9]) && dg == old(out[..9]) + Image(talkdata) + body
  {
    ghost var before := out[..];
    CopyInto(out, 9, Image(talkdata));
    CopyInto(out, 9 + HEADER_SIZE, body);
    DatagramInBuffer(before, Image(talkdata), body);
    dg := out[..9 + HEADER_SIZE + |body|];
  }
}
