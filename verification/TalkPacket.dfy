/** struct talkdata1 (packed, little-endian) and the datagram that carries it. */
module TalkPacket {
  import opened Bytes

  const VIDEOTALK: byte := 150
  const CALLUP: byte := 7

  /** "QIUSHI" */
  const PACKAGE_HEAD: seq<byte> := [0x51, 0x49, 0x55, 0x53, 0x48, 0x49]

  /** The nine bytes in front of every audio and video datagram of the caller. */
  const TALK_HEAD: seq<byte> := PACKAGE_HEAD + [VIDEOTALK, 1, CALLUP]

  datatype Identity = Identity(hostAddr: seq<byte>, hostIP: seq<byte>, assiAddr: seq<byte>, assiIP: seq<byte>) {
    predicate Sized() {
      |hostAddr| == 20 && |hostIP| == 4 && |assiAddr| == 20 && |assiIP| == 4
    }
  }

  datatype TalkData = TalkData(
    id: Identity, timestamp: nat, dataType: nat, frameno: nat, framelen: nat,
    total: nat, curr: nat, datalen: nat, packLen: nat)
  {
    predicate Fits() {
      && id.Sized() && timestamp < 0x1_0000_0000 && dataType < 0x1_0000 && frameno < 0x1_0000
      && framelen < 0x1_0000_0000 && total < 0x1_0000 && curr < 0x1_0000 && datalen < 0x1_0000 && packLen < 0x1_0000
    }
  }

  const HEADER_SIZE: nat := 68

  function IdImage(id: Identity): (b: seq<byte>)
    requires id.Sized()
    ensures |b| == 48
  {
    id.hostAddr + id.hostIP + id.assiAddr + id.assiIP
  }

  function ParseId(b: seq<byte>): (id: Identity)
    requires |b| == 48
    ensures id.Sized()
  {
    Identity(b[..20], b[20..24], b[24..44], b[44..])
  }

  function FieldsImage(t: TalkData): (b: seq<byte>)
    requires t.Fits()
    ensures |b| == 20
  {
    Le32(t.timestamp) + Le16(t.dataType) + Le16(t.frameno) + Le32(t.framelen)
    + Le16(t.total) + Le16(t.curr) + Le16(t.datalen) + Le16(t.packLen)
  }

  function Image(t: TalkData): (b: seq<byte>)
    requires t.Fits()
    ensures |b| == HEADER_SIZE
  {
    IdImage(t.id) + FieldsImage(t)
  }

  function Parse(b: seq<byte>): (t: TalkData)
    requires |b| == HEADER_SIZE
    ensures t.Fits()
  {
    TalkData(ParseId(b[..48]), FromLe32(b[48..52]), FromLe16(b[52..54]), FromLe16(b[54..56]), FromLe32(b[56..60]),
             FromLe16(b[60..62]), FromLe16(b[62..64]), FromLe16(b[64..66]), FromLe16(b[66..]))
  }

  lemma Le16Inverse(x: nat)
    requires x < 0x1_0000
    ensures FromLe16(Le16(x)) == x
  {
  }

  lemma Le32Inverse(x: nat)
    requires x < 0x1_0000_0000
    ensures FromLe32(Le32(x)) == x
  {
    var b := Le32(x);
    assert b[..2] == Le16(x % 0x1_0000) && b[2..] == Le16(x / 0x1_0000);
  }

  lemma IdRoundTrip(id: Identity)
    requires id.Sized()
    ensures ParseId(IdImage(id)) == id
  {
    var b := IdImage(id);
    assert b[..20] == id.hostAddr && b[20..24] == id.hostIP && b[24..44] == id.assiAddr && b[44..] == id.assiIP;
  }

  /** Every header is read back as it was written. */
  lemma HeaderRoundTrip(t: TalkData)
    requires t.Fits()
    ensures Parse(Image(t)) == t
  {
    var b, f := Image(t), FieldsImage(t);
    assert b[..48] == IdImage(t.id);
    IdRoundTrip(t.id);
    assert f[..4] == Le32(t.timestamp) && f[4..6] == Le16(t.dataType) && f[6..8] == Le16(t.frameno);
    assert f[8..12] == Le32(t.framelen) && f[12..14] == Le16(t.total) && f[14..16] == Le16(t.curr);
    assert f[16..18] == Le16(t.datalen) && f[18..] == Le16(t.packLen);
    Shifted(IdImage(t.id), f);
    Le32Inverse(t.timestamp);
    Le16Inverse(t.dataType);
    Le16Inverse(t.frameno);
    Le32Inverse(t.framelen);
    Le16Inverse(t.total);
    Le16Inverse(t.curr);
    Le16Inverse(t.datalen);
    Le16Inverse(t.packLen);
  }

  lemma Shifted(a: seq<byte>, f: seq<byte>)
    requires |a| == 48 && |f| == 20
    ensures var b := a + f;
            && b[48..52] == f[..4] && b[52..54] == f[4..6] && b[54..56] == f[6..8] && b[56..60] == f[8..12]
            && b[60..62] == f[12..14] && b[62..64] == f[14..16] && b[64..66] == f[16..18] && b[66..] == f[18..]
  {
  }

  /** Where struct talkdata1 has each field. */
  lemma HeaderLayout(t: TalkData)
    requires t.Fits()
    ensures var b := Image(t);
            && b[0..20] == t.id.hostAddr && b[20..24] == t.id.hostIP && b[24..44] == t.id.assiAddr && b[44..48] == t.id.assiIP
            && b[48..52] == Le32(t.timestamp) && b[52..54] == Le16(t.dataType) && b[54..56] == Le16(t.frameno)
            && b[56..60] == Le32(t.framelen) && b[60..62] == Le16(t.total) && b[62..64] == Le16(t.curr)
            && b[64..66] == Le16(t.datalen) && b[66..68] == Le16(t.packLen)
  {
    var b, i, f := Image(t), IdImage(t.id), FieldsImage(t);
    Shifted(i, f);
    assert b[0..20] == i[0..20] && b[20..24] == i[20..24] && b[24..44] == i[24..44] && b[44..48] == i[44..48];
    assert f[..4] == Le32(t.timestamp) && f[4..6] == Le16(t.dataType) && f[6..8] == Le16(t.frameno);
    assert f[8..12] == Le32(t.framelen) && f[12..14] == Le16(t.total) && f[14..16] == Le16(t.curr);
    assert f[16..18] == Le16(t.datalen) && f[18..] == Le16(t.packLen);
    assert b[66..68] == b[66..];
  }

  /** The fields byte by byte, the low byte first. */
  lemma HeaderBytes(t: TalkData)
    requires t.Fits()
    ensures var b := Image(t);
            && b[48..52] == [t.timestamp % 0x100, t.timestamp / 0x100 % 0x100, t.timestamp / 0x1_0000 % 0x100, t.timestamp / 0x100_0000]
            && b[52..54] == [t.dataType % 0x100, t.dataType / 0x100] && b[54..56] == [t.frameno % 0x100, t.frameno / 0x100]
            && b[56..60] == [t.framelen % 0x100, t.framelen / 0x100 % 0x100, t.framelen / 0x1_0000 % 0x100, t.framelen / 0x100_0000]
            && b[60..62] == [t.total % 0x100, t.total / 0x100] && b[62..64] == [t.curr % 0x100, t.curr / 0x100]
            && b[64..66] == [t.datalen % 0x100, t.datalen / 0x100] && b[66..68] == [t.packLen % 0x100, t.packLen / 0x100]
  {
    hide Image, Le32;
    HeaderLayout(t);
    Le32Bytes(t.timestamp);
    Le32Bytes(t.framelen);
  }

  lemma Le32Bytes(x: nat)
    requires x < 0x1_0000_0000
    ensures Le32(x) == [x % 0x100, x / 0x100 % 0x100, x / 0x1_0000 % 0x100, x / 0x100_0000]
  {
    var a, b := x / 0x1_0000, x % 0x1_0000;
    assert x == 0x1_0000 * a + b;
    Halves(x, a, b);
    assert x / 0x100_0000 == a / 0x100;
  }

  /** And every 68 bytes are the image of the header they are read as. */
  lemma ImageRoundTrip(b: seq<byte>)
    requires |b| == HEADER_SIZE
    ensures Image(Parse(b)) == b
  {
    assert IdImage(ParseId(b[..48])) == b[..48];
    assert FieldsImage(Parse(b)) ==
             b[48..52] + b[52..54] + b[54..56] + b[56..60] + b[60..62] + b[62..64] + b[64..66] + b[66..];
    assert b == b[..48] + (b[48..52] + b[52..54] + b[54..56] + b[56..60] + b[60..62] + b[62..64] + b[64..66] + b[66..]);
  }

  /** The receiver tells audio from video by byte 61 alone. */
  lemma KindByte(t: TalkData, body: seq<byte>)
    requires t.Fits()
    ensures (TALK_HEAD + Image(t) + body)[61] == t.dataType % 0x100
  {
    assert (TALK_HEAD + Image(t) + body)[61] == Image(t)[52] == FieldsImage(t)[4] == Le16(t.dataType)[0];
  }

  /** What a datagram says, if it is one of these. */
  function Datagram(t: TalkData, body: seq<byte>): seq<byte>
    requires t.Fits()
  {
    TALK_HEAD + Image(t) + body
  }

  predicate IsTalk(dg: seq<byte>) {
    |dg| >= 77 && dg[..9] == TALK_HEAD
  }

  lemma DatagramReads(t: TalkData, body: seq<byte>)
    requires t.Fits()
    ensures var dg := Datagram(t, body); IsTalk(dg) && Parse(dg[9..77]) == t && dg[77..] == body
  {
    var dg := Datagram(t, body);
    assert dg[..9] == TALK_HEAD && dg[9..77] == Image(t) && dg[77..] == body;
    HeaderRoundTrip(t);
  }
}
