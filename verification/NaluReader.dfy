/** The scanner: GetAnnexbNALU over a file with a cursor and an end-of-file flag. */
module NaluReader {
  import opened Bytes
  import opened AnnexB

  /** A FILE opened for reading, as far as fread, fgetc, feof and fseek see it. */
  class BitFile {
    const data: seq<byte>
    var cursor: nat
    var eof: bool

    ghost predicate Valid()
      reads this
    {
      cursor <= |data| && (eof ==> cursor == |data|)
    }

    constructor (data: seq<byte>)
      ensures Valid() && this.data == data && cursor == 0 && !eof
    {
      this.data, cursor, eof := data, 0, false;
    }

    /** Bytes a read of n items can still get. */
    function Available(n: nat): (got: nat)
      requires Valid()
      reads this
      ensures got <= n && cursor + got <= |data|
    {
      if n <= |data| - cursor then n else |data| - cursor
    }

    method Fread(buf: array<byte>, at: nat, n: nat) returns (got: nat)
      requires Valid() && at + Available(n) <= buf.Length
      modifies this, buf
      ensures Valid()
      ensures got == old(Available(n)) && cursor == old(cursor) + got
      ensures eof == (old(eof) || got < n)
      ensures buf[..] == Splice(old(buf[..]), at, data[old(cursor)..cursor])
    {
      got := Available(n);
      CopyInto(buf, at, data[cursor..cursor + got]);
      cursor, eof := cursor + got, eof || got < n;
    }

    /** fgetc with its result stored in an unsigned char: EOF becomes 0xFF. */
    method Fgetc() returns (c: byte)
      requires Valid()
      modifies this
      ensures Valid()
      ensures if old(cursor) < |data| then c == data[old(cursor)] && cursor == old(cursor) + 1 && eof == old(eof)
              else c == 0xFF && cursor == old(cursor) && eof
    {
      if cursor < |data| {
        c, cursor := data[cursor], cursor + 1;
      } else {
        c, eof := 0xFF, true;
      }
    }

    /** fseek(-n, SEEK_CUR), which also clears the end-of-file flag. */
    method SeekBack(n: nat)
      requires Valid() && n <= cursor
      modifies this
      ensures Valid() && cursor == old(cursor) - n && !eof
    {
      cursor, eof := cursor - n, false;
    }
  }

  /** struct NALU_t without lost_packets, which nothing uses. */
  class Nalu {
    var startcodeprefix_len: nat
    var len: nat
    const max_size: nat
    var forbidden_bit: nat
    var nal_reference_idc: nat
    var nal_unit_type: nat
    const buf: array<byte>

    ghost predicate Valid()
      reads this, buf
    {
      && buf.Length == max_size > 0
      && nal_unit_type == buf[0] % 32
    }

    /** AllocNALU: calloc leaves every field and byte zero. */
    constructor (buffersize: nat)
      requires buffersize > 0
      ensures Valid() && fresh(buf) && max_size == buffersize
      ensures startcodeprefix_len == 0 && len == 0 && buf[0] == 0
    {
      startcodeprefix_len, len, max_size := 0, 0, buffersize;
      forbidden_bit, nal_reference_idc, nal_unit_type := 0, 0, 0;
      buf := new byte[buffersize](_ => 0);
    }

    /** The header fields as the end-of-file path (shifted) and the mid-stream
        path (masked in place) leave them. */
    ghost predicate Header(last: bool)
      requires buf.Length > 0
      reads this, buf
    {
      && forbidden_bit == (if last then buf[0] / 128 else buf[0] / 128 * 128)
      && nal_reference_idc == (if last then buf[0] / 32 % 4 else buf[0] / 32 % 4 * 32)
    }

    /** The tail shared by both ends of GetAnnexbNALU: length, payload, header. */
    method Store(src: array<byte>, at: nat, n: nat, last: bool)
      requires buf.Length == max_size > 0 && src != buf
      requires at + n <= src.Length && n <= buf.Length
      modifies `len, `forbidden_bit, `nal_reference_idc, `nal_unit_type, buf
      ensures Valid() && Header(last)
      ensures len == n && buf[..] == Splice(old(buf[..]), 0, src[at..at + n])
    {
      len := n;
      CopyInto(buf, 0, src[at..at + n]);
      if last {
        forbidden_bit := buf[0] / 128 % 2;
        nal_reference_idc := buf[0] / 32 % 4;
      } else {
        forbidden_bit := buf[0] / 128 * 128;
        nal_reference_idc := buf[0] / 32 % 4 * 32;
      }
      nal_unit_type := buf[0] % 32;
    }
  }

  /** What one call meets: fewer than a start code's bytes, no start code, or a
      unit, which is the last one when the scan ran into the end of the file. */
  datatype Outcome = Short | NoCode | Found(unit: Unit, last: bool)

  function ReadUnit(d: seq<byte>, c: nat): (o: Outcome)
    requires c <= |d|
    ensures o.Found? ==> OnBoundary(d, c) && c < |d| && o.unit == UnitAt(d, c)
    ensures o.Found? && o.last ==> c + o.unit.Size() == |d|
    ensures OnBoundary(d, c) && c < |d| ==> o.Found? && (o.last <==> c + o.unit.Size() == |d|)
  {
    if PrefixAt(d, c) != 0 then Found(UnitAt(d, c), c + UnitAt(d, c).Size() == |d|)
    else if |d| - c < 4 then Short
    else NoCode
  }

  /** Bytes the call stores in its scratch buffer: the unit, the start code read
      ahead of the next unit or the end-of-file sentinel, or the four bytes
      tested for a start code. */
  function Span(d: seq<byte>, c: nat): (n: nat)
    requires c <= |d|
  {
    if PrefixAt(d, c) == 0 then 4
    else
      var q := NextCode(d, c + PrefixAt(d, c));
      if q == |d| then |d| - c + 1 else q + 3 - c
  }

  function FindStartCode2(Buf: array<byte>, at: nat): int
    requires at + 3 <= Buf.Length
    reads Buf
  {
    if Buf[at] != 0 || Buf[at + 1] != 0 || Buf[at + 2] != 1 then 0 else 1
  }

  function FindStartCode3(Buf: array<byte>, at: nat): int
    requires at + 4 <= Buf.Length
    reads Buf
  {
    if Buf[at] != 0 || Buf[at + 1] != 0 || Buf[at + 2] != 0 || Buf[at + 3] != 1 then 0 else 1
  }

  /** cur is how far the call has read. A window whose last byte is payload never
      reaches back into the unit's own start code, so the first window that
      matches ends at NextCode. */
  lemma FirstMatch(d: seq<byte>, c: nat, cur: nat, q: nat)
    requires c < cur <= |d| && 0 < PrefixAt(d, c) < cur - c
    requires q == NextCode(d, c + PrefixAt(d, c))
    requires q < |d| ==> cur <= q + 3
    ensures c + 4 <= cur
    ensures CodeAt(d, cur - 3) <==> q < |d| && cur == q + 3
  {
    NextCodeLeast(d, c + PrefixAt(d, c));
    assert d[c + PrefixAt(d, c) - 1] == 1;
  }

  lemma CodeFits(d: seq<byte>, from: nat)
    requires from <= |d|
    ensures NextCode(d, from) < |d| ==> NextCode(d, from) + 3 <= |d|
  {
    NextCodeLeast(d, from);
  }

  /** The zero of a long start code never is the last byte of the one before. */
  lemma EndsAt(d: seq<byte>, c: nat, q: nat)
    requires c <= |d| && PrefixAt(d, c) != 0 && q == NextCode(d, c + PrefixAt(d, c)) < |d|
    ensures UnitEnd(d, c + PrefixAt(d, c)) == if d[q - 1] == 0 then q - 1 else q
  {
    assert d[c + PrefixAt(d, c) - 1] == 1;
  }

  lemma UnitRead(d: seq<byte>, c: nat, Buf: array<byte>, n: nat)
    requires c <= |d| && 0 < PrefixAt(d, c) <= n <= Buf.Length
    requires c + n == UnitEnd(d, c + PrefixAt(d, c))
    requires forall k :: 0 <= k < n ==> Buf[k] == d[c + k]
    ensures ReadUnit(d, c) == Found(Unit(PrefixAt(d, c) == 4, Buf[PrefixAt(d, c)..n]), c + n == |d|)
  {
    assert Buf[PrefixAt(d, c)..n] == d[c + PrefixAt(d, c)..c + n];
  }

  /** What the call leaves behind in the file. */
  ghost predicate Advanced(d: seq<byte>, c: nat, cursor: nat, eof: bool)
    requires c <= |d|
  {
    match ReadUnit(d, c)
    case Short => cursor == |d| && eof
    case NoCode => cursor == c + 4 && !eof
    case Found(u, last) => cursor == c + u.Size() && eof == last
  }

  /** The start-code test at the head of GetAnnexbNALU: the code's length, or
      the value the call returns at once. */
  method ReadPrefix(bits: BitFile, Buf: array<byte>) returns (pos: int)
    requires bits.Valid() && Buf.Length >= 4
    modifies bits, Buf
    ensures bits.Valid()
    ensures match ReadUnit(bits.data, old(bits.cursor))
            case Short => pos == 0 && bits.cursor == |bits.data| && bits.eof
            case NoCode => pos == -1 && bits.cursor == old(bits.cursor) + 4 && !bits.eof
            case Found(_, _) =>
              && pos == PrefixAt(bits.data, old(bits.cursor)) && bits.cursor == old(bits.cursor) + pos && !bits.eof
              && pos <= 4 && forall k :: 0 <= k < pos ==> Buf[k] == bits.data[old(bits.cursor) + k]
  {
    ghost var d, c := bits.data, bits.cursor;
    var got := bits.Fread(Buf, 0, 3);
    if got != 3 {
      return 0;
    }
    var info2 := FindStartCode2(Buf, 0);
    if info2 != 1 {
      got := bits.Fread(Buf, 3, 1);
      if got != 1 {
        return 0;
      }
      var info3 := FindStartCode3(Buf, 0);
      return if info3 != 1 then -1 else 4;
    } else {
      return 3;
    }
  }

  /** The scan loop of GetAnnexbNALU. rewind is what takes pos back to the end of
      the unit: -4 or -3 past a start code, -1 past the end-of-file sentinel. */
  method ScanUnit(bits: BitFile, Buf: array<byte>, prefix: nat, ghost c: nat) returns (pos: nat, rewind: int)
    requires bits.Valid() && !bits.eof && c <= |bits.data|
    requires prefix == PrefixAt(bits.data, c) != 0 && bits.cursor == c + prefix
    requires Span(bits.data, c) <= Buf.Length
    requires forall k :: 0 <= k < prefix ==> Buf[k] == bits.data[c + k]
    modifies bits, Buf
    ensures bits.Valid()
    ensures rewind in {-1, -3, -4} && prefix <= pos + rewind && pos <= Buf.Length
    ensures c + pos + rewind == UnitEnd(bits.data, c + prefix)
    ensures forall k :: 0 <= k < pos + rewind ==> Buf[k] == bits.data[c + k]
    ensures rewind == -1 <==> c + pos + rewind == |bits.data|
    ensures if rewind == -1 then bits.eof && bits.cursor == c + pos - 1 else !bits.eof && bits.cursor == c + pos
  {
    ghost var d := bits.data;
    ghost var q := NextCode(d, c + prefix);
    CodeFits(d, c + prefix);
    var StartCodeFound := false;
    var info2, info3 := 0, 0;
    pos := prefix;
    while !StartCodeFound
      invariant bits.Valid() && prefix <= pos <= Buf.Length
      invariant bits.cursor == c + pos - (if bits.eof then 1 else 0)
      invariant bits.eof ==> bits.cursor == |d|
      invariant forall k :: 0 <= k < bits.cursor - c ==> Buf[k] == d[c + k]
      invariant StartCodeFound <==> info2 == 1 || info3 == 1
      invariant StartCodeFound ==> !bits.eof && bits.cursor == q + 3
      invariant StartCodeFound ==> (info3 == 1 <==> d[q - 1] == 0)
      invariant !StartCodeFound && q < |d| ==> bits.cursor < q + 3
      decreases !StartCodeFound, |d| - bits.cursor, !bits.eof
    {
      if bits.eof {
        return pos, -1;
      }
      var ch := bits.Fgetc();
      Buf[pos] := ch;
      pos := pos + 1;
      if !bits.eof {
        FirstMatch(d, c, bits.cursor, q);
      }
      info3 := FindStartCode3(Buf, pos - 4);
      if info3 != 1 {
        info2 := FindStartCode2(Buf, pos - 3);
      }
      StartCodeFound := info2 == 1 || info3 == 1;
    }
    rewind := if info3 == 1 then -4 else -3;
    EndsAt(d, c, q);
  }

  lemma SpanAtLeast(d: seq<byte>, c: nat)
    requires c <= |d|
    ensures Span(d, c) >= 4
  {
  }

  method GetAnnexbNALU(bits: BitFile, nalu: Nalu) returns (r: int)
    requires bits.Valid() && nalu.Valid()
    requires Span(bits.data, bits.cursor) <= nalu.max_size
    modifies bits, nalu, nalu.buf
    ensures bits.Valid() && nalu.Valid()
    ensures Advanced(bits.data, old(bits.cursor), bits.cursor, bits.eof)
    ensures match ReadUnit(bits.data, old(bits.cursor))
            case Short => r == 0 && nalu.startcodeprefix_len == 3 && unchanged(nalu`len, nalu.buf)
            case NoCode => r == -1 && nalu.startcodeprefix_len == 3 && unchanged(nalu`len, nalu.buf)
            case Found(u, last) =>
              && r == u.Size() && nalu.startcodeprefix_len == u.Prefix() && nalu.len == |u.payload|
              && |u.payload| <= nalu.buf.Length && nalu.buf[..] == Splice(old(nalu.buf[..]), 0, u.payload)
              && nalu.Header(last)
  {
    hide ReadUnit, UnitAt, UnitEnd, NextCode, PrefixAt, Span, Splice;
    ghost var d, c := bits.data, bits.cursor;
    SpanAtLeast(d, c);
    var Buf := new byte[nalu.max_size](_ => 0);
    nalu.startcodeprefix_len := 3;
    var prefix := ReadPrefix(bits, Buf);
    if prefix <= 0 {
      return prefix;
    }
    nalu.startcodeprefix_len := prefix;

    var pos, rewind := ScanUnit(bits, Buf, prefix, c);
    UnitRead(d, c, Buf, pos + rewind);
    if rewind == -1 {
      nalu.Store(Buf, prefix, pos - 1 - prefix, true);
      return pos - 1;
    }
    bits.SeekBack(-rewind);
    nalu.Store(Buf, prefix, pos + rewind - prefix, false);
    return pos + rewind;
  }

  /** Calling until the end of the file is met. */
  function ReadAll(d: seq<byte>, c: nat): seq<Unit>
    requires c <= |d|
    decreases |d| - c
  {
    match ReadUnit(d, c)
    case Short => []
    case NoCode => ReadAll(d, c + 4)
    case Found(u, last) => [u] + if last then [] else ReadAll(d, c + u.Size())
  }

  lemma NothingToRead(d: seq<byte>)
    ensures ReadAll(d, |d|) == [] && Split(d, |d|) == []
  {
  }

  lemma ReadAllUnfold(d: seq<byte>, c: nat)
    requires OnBoundary(d, c) && c < |d|
    ensures var u := UnitAt(d, c);
            ReadAll(d, c) == [u] + if c + u.Size() == |d| then [] else ReadAll(d, c + u.Size())
  {
    hide UnitAt, PrefixAt, ReadUnit, Split;
    assert ReadUnit(d, c) == Found(UnitAt(d, c), c + UnitAt(d, c).Size() == |d|);
  }

  lemma {:induction false} ReadAllSplits(d: seq<byte>, c: nat)
    requires OnBoundary(d, c)
    ensures ReadAll(d, c) == Split(d, c)
    decreases |d| - c
  {
    hide ReadAll, Split, UnitAt;
    if c == |d| {
      NothingToRead(d);
    } else {
      var u, e := SplitUnfold(d, c);
      ReadAllUnfold(d, c);
      if e == |d| {
        NothingToRead(d);
      } else {
        ReadAllSplits(d, e);
      }
    }
  }

  /** Reading a printed list until the end of the file gives back the list,
      exactly when it is printable. */
  lemma ReadBack(us: seq<Unit>)
    ensures ReadAll(Serialise(us), 0) == us <==> Printable(us)
  {
    RoundTrip(us);
    ReadAllSplits(Serialise(us), 0);
  }

  /** The scratch buffer has to hold the unit and the start code read ahead of
      the next one, or the end-of-file sentinel. */
  lemma SpanIs(d: seq<byte>, c: nat)
    requires OnBoundary(d, c) && c < |d|
    ensures var e := c + UnitAt(d, c).Size();
            Span(d, c) == UnitAt(d, c).Size() + if e == |d| then 1 else PrefixAt(d, e)
  {
    var p := c + PrefixAt(d, c);
    NextCodeLeast(d, p);
    assert d[p - 1] == 1;
  }
}
