/**
 * The byte-stream format of Annex B of ITU-T H.264, stated without a scanner:
 * where a NAL unit ends, how a stream divides into units, and which unit lists
 * survive being printed and read back.
 */
module AnnexB {
  import opened Bytes

  /** 00 00 01 starts at i. */
  predicate CodeAt(d: seq<byte>, i: int) {
    0 <= i && i + 3 <= |d| && d[i] == 0 && d[i + 1] == 0 && d[i + 2] == 1
  }

  /** Length of the start code at c: 3, 4, or 0 when there is none. */
  function PrefixAt(d: seq<byte>, c: nat): (n: nat)
    requires c <= |d|
    ensures n in {0, 3, 4} && c + n <= |d|
  {
    if CodeAt(d, c) then 3
    else if c < |d| && d[c] == 0 && CodeAt(d, c + 1) then 4
    else 0
  }

  /** The first 00 00 01 at or after from; |d| when there is none. */
  function NextCode(d: seq<byte>, from: nat): (q: nat)
    requires from <= |d|
    ensures from <= q <= |d|
    decreases |d| - from
  {
    if from == |d| || CodeAt(d, from) then from else NextCode(d, from + 1)
  }

  /** Where a unit whose payload begins at p ends: at the next start code, a
      zero just before it counted as part of that code. */
  function UnitEnd(d: seq<byte>, p: nat): (e: nat)
    requires p <= |d|
    ensures p <= e <= |d|
  {
    var q := NextCode(d, p);
    if q < |d| && p < q && d[q - 1] == 0 then q - 1 else q
  }

  datatype Unit = Unit(long: bool, payload: seq<byte>) {
    function Prefix(): nat {
      if long then 4 else 3
    }

    function Size(): nat {
      Prefix() + |payload|
    }

    function Bytes(): (b: seq<byte>)
      ensures |b| == Size()
    {
      (if long then [0, 0, 0, 1] else [0, 0, 1]) + payload
    }
  }

  /** A place from which only whole units follow. */
  predicate OnBoundary(d: seq<byte>, c: nat) {
    c <= |d| && (c < |d| ==> PrefixAt(d, c) != 0)
  }

  function UnitAt(d: seq<byte>, c: nat): (u: Unit)
    requires OnBoundary(d, c) && c < |d|
    ensures c + u.Size() <= |d|
  {
    var n := PrefixAt(d, c);
    Unit(n == 4, d[c + n..UnitEnd(d, c + n)])
  }

  function Split(d: seq<byte>, c: nat): seq<Unit>
    requires OnBoundary(d, c)
    decreases |d| - c
  {
    if c == |d| then []
    else
      var u := UnitAt(d, c);
      UnitAtBoundary(d, c);
      [u] + Split(d, c + u.Size())
  }

  function Serialise(us: seq<Unit>): seq<byte> {
    if us == [] then [] else us[0].Bytes() + Serialise(us[1..])
  }

  // ------------------------------------------------------------ start codes

  /** NextCode is the least match. */
  lemma {:induction false} NextCodeLeast(d: seq<byte>, from: nat)
    requires from <= |d|
    ensures var q := NextCode(d, from);
            (q < |d| ==> CodeAt(d, q)) && forall i :: from <= i < q ==> !CodeAt(d, i)
    decreases |d| - from
  {
    if from < |d| && !CodeAt(d, from) {
      NextCodeLeast(d, from + 1);
    }
  }

  lemma NextCodeIs(d: seq<byte>, from: nat, q: nat)
    requires from <= q <= |d|
    requires q < |d| ==> CodeAt(d, q)
    requires forall i :: from <= i < q ==> !CodeAt(d, i)
    ensures NextCode(d, from) == q
  {
    NextCodeLeast(d, from);
    var n := NextCode(d, from);
    assert !(n < q) by { assert n < |d| ==> CodeAt(d, n); }
    assert !(q < n) by { assert q < |d| ==> CodeAt(d, q); }
  }

  lemma CodeInSlice(d: seq<byte>, p: nat, e: nat, i: nat)
    requires p <= e <= |d| && p + i + 3 <= e
    ensures CodeAt(d[p..e], i) == CodeAt(d, p + i)
  {
    var b := d[p..e];
    assert b[i] == d[p + i] && b[i + 1] == d[p + i + 1] && b[i + 2] == d[p + i + 2];
  }

  /** A unit is followed by a start code or by nothing. */
  lemma UnitAtBoundary(d: seq<byte>, c: nat)
    requires OnBoundary(d, c) && c < |d|
    ensures OnBoundary(d, c + UnitAt(d, c).Size())
  {
    NextCodeLeast(d, c + PrefixAt(d, c));
  }

  // ---------------------------------------------------------------- tiling

  lemma SerialiseCons(u: Unit, us: seq<Unit>)
    ensures Serialise([u] + us) == u.Bytes() + Serialise(us)
  {
    assert ([u] + us)[1..] == us;
  }

  /** One unit off the front of a split. */
  lemma SplitUnfold(d: seq<byte>, c: nat) returns (u: Unit, e: nat)
    requires OnBoundary(d, c) && c < |d|
    ensures u == UnitAt(d, c) && e == c + u.Size() && OnBoundary(d, e)
    ensures Split(d, c) == [u] + Split(d, e)
    ensures PrefixAt(d, c) == u.Prefix() && c + u.Prefix() <= e == UnitEnd(d, c + u.Prefix())
    ensures d[c + u.Prefix()..e] == u.payload
  {
    u := UnitAt(d, c);
    e := c + u.Size();
    UnitAtBoundary(d, c);
  }

  lemma PrefixBytes(d: seq<byte>, c: nat)
    requires c <= |d| && PrefixAt(d, c) != 0
    ensures d[c..c + PrefixAt(d, c)] == if PrefixAt(d, c) == 4 then [0, 0, 0, 1] else [0, 0, 1]
  {
  }

  lemma Pieces(d: seq<byte>, i: nat, j: nat, k: nat)
    requires i <= j <= k <= |d|
    ensures d[i..] == d[i..j] + d[j..k] + d[k..]
  {
  }

  /** The units of any stream that starts on a start code concatenate to it. */
  lemma {:induction false} SplitTiles(d: seq<byte>, c: nat)
    requires OnBoundary(d, c)
    ensures Serialise(Split(d, c)) == d[c..]
    decreases |d| - c
  {
    if c == |d| {
    } else {
      var u, e := SplitUnfold(d, c);
      SplitTiles(d, e);
      SerialiseCons(u, Split(d, e));
      PrefixBytes(d, c);
      Pieces(d, c, c + u.Prefix(), e);
    }
  }

  // ------------------------------------------------------------ round trip

  predicate NoCode(b: seq<byte>) {
    forall i :: 0 <= i < |b| ==> !CodeAt(b, i)
  }

  predicate EndsInZero(b: seq<byte>) {
    b != [] && b[|b| - 1] == 0
  }

  /** No payload holds a start code, and a payload that ends in a zero byte is
      the last one or is followed by the long start code. Section 7.4.1 of H.264
      (no start code inside a NAL unit, no zero at its end) asks for more. */
  predicate Printable(us: seq<Unit>) {
    && (forall i :: 0 <= i < |us| ==> NoCode(us[i].payload))
    && (forall i :: 0 <= i < |us| - 1 && EndsInZero(us[i].payload) ==> us[i + 1].long)
  }

  lemma PayloadHasNoCode(d: seq<byte>, p: nat, e: nat)
    requires p <= |d| && p <= e <= NextCode(d, p)
    ensures NoCode(d[p..e]) && (EndsInZero(d[p..e]) <==> p < e && d[e - 1] == 0)
  {
    NextCodeLeast(d, p);
    var b := d[p..e];
    forall i | 0 <= i < |b|
      ensures !CodeAt(b, i)
    {
      if i + 3 <= |b| {
        CodeInSlice(d, p, e, i);
      }
    }
  }

  lemma PrintableCons(u: Unit, us: seq<Unit>)
    requires Printable(us) && NoCode(u.payload)
    requires us != [] && EndsInZero(u.payload) ==> us[0].long
    ensures Printable([u] + us)
  {
    var all := [u] + us;
    forall i | 0 <= i < |all|
      ensures NoCode(all[i].payload)
    {
      assert i > 0 ==> all[i] == us[i - 1];
    }
    forall i | 0 <= i < |all| - 1 && EndsInZero(all[i].payload)
      ensures all[i + 1].long
    {
      assert all[i + 1] == us[i];
      assert i > 0 ==> all[i] == us[i - 1];
    }
  }

  /** A zero just before a start code belongs to it. */
  lemma ZeroGoesToTheCode(d: seq<byte>, p: nat)
    requires p <= |d|
    ensures var e := UnitEnd(d, p); p < e < |d| && d[e - 1] == 0 ==> PrefixAt(d, e) == 4
  {
    NextCodeLeast(d, p);
  }

  lemma SplitEnds(d: seq<byte>)
    ensures Split(d, |d|) == []
  {
  }

  /** A zero byte at the end of a unit means that the next one begins with a long
      start code. */
  lemma ZeroBeforeLong(d: seq<byte>, c: nat, u: Unit, e: nat)
    requires OnBoundary(d, c) && c < |d| && u == UnitAt(d, c) && e == c + u.Size()
    ensures OnBoundary(d, e) && NoCode(u.payload)
    ensures e < |d| && EndsInZero(u.payload) ==> UnitAt(d, e).long
  {
    hide CodeAt, NoCode, NextCode, Split, UnitAt;
    var u', e' := SplitUnfold(d, c);
    var p := c + u.Prefix();
    PayloadHasNoCode(d, p, e);
    ZeroGoesToTheCode(d, p);
    if e < |d| {
      var next, _ := SplitUnfold(d, e);
    }
  }

  /** Every list the splitter produces is printable. */
  lemma {:induction false} SplitIsPrintable(d: seq<byte>, c: nat)
    requires OnBoundary(d, c)
    ensures Printable(Split(d, c))
    decreases |d| - c
  {
    hide Split, UnitAt, NoCode, EndsInZero, PrefixAt;
    if c == |d| {
      SplitEnds(d);
    } else {
      var u, e := SplitUnfold(d, c);
      ZeroBeforeLong(d, c, u, e);
      SplitIsPrintable(d, e);
      if e == |d| {
        SplitEnds(d);
      } else {
        var next, _ := SplitUnfold(d, e);
        assert Split(d, e)[0] == next;
      }
      PrintableCons(u, Split(d, e));
    }
  }

  /** Behind a printable payload the next start code is where it was printed. */
  lemma PayloadEnds(d: seq<byte>, p: nat, e: nat)
    requires p <= e && OnBoundary(d, e) && NoCode(d[p..e])
    requires p < e < |d| && d[e - 1] == 0 ==> PrefixAt(d, e) == 4
    requires p > 0 && d[p - 1] == 1
    ensures UnitEnd(d, p) == e
  {
    var q := if e < |d| then e + PrefixAt(d, e) - 3 else e;
    forall i | p <= i < q
      ensures !CodeAt(d, i)
    {
      if i + 3 <= e {
        CodeInSlice(d, p, e, i - p);
      } else if i + 3 <= |d| {
        assert d[i + 2] == 0;
      }
    }
    NextCodeIs(d, p, q);
  }

  lemma UnitReadBack(d: seq<byte>, c: nat, u: Unit, e: nat)
    requires e == c + u.Size() <= |d| && d[c..e] == u.Bytes()
    requires NoCode(u.payload) && OnBoundary(d, e)
    requires e < |d| && EndsInZero(u.payload) ==> PrefixAt(d, e) == 4
    ensures OnBoundary(d, c) && UnitAt(d, c) == u
  {
    var p := c + u.Prefix();
    var b := d[c..e];
    assert d[c] == b[0] && d[c + 1] == b[1] && d[c + 2] == b[2] && d[p - 1] == b[p - 1 - c];
    assert PrefixAt(d, c) == u.Prefix();
    assert d[p..e] == b[u.Prefix()..] == u.payload;
    assert p < e ==> d[e - 1] == u.payload[|u.payload| - 1];
    PayloadEnds(d, p, e);
  }

  lemma PrintableTail(us: seq<Unit>)
    requires us != [] && Printable(us)
    ensures Printable(us[1..])
  {
    var rest := us[1..];
    assert forall i :: 0 <= i < |rest| ==> rest[i] == us[i + 1];
  }

  lemma HeadAndTail<T>(s: seq<T>)
    requires s != []
    ensures s == [s[0]] + s[1..]
  {
  }

  lemma {:induction false} SplitPrinted(d: seq<byte>, c: nat, us: seq<Unit>)
    requires c <= |d| && d[c..] == Serialise(us)
    requires Printable(us)
    ensures OnBoundary(d, c) && Split(d, c) == us
    decreases |us|
  {
    if us == [] {
      assert |d[c..]| == |d| - c;
    } else {
      var u, rest := us[0], us[1..];
      var e := c + u.Size();
      assert d[c..e] == d[c..][..u.Size()] == u.Bytes();
      assert d[e..] == d[c..][u.Size()..] == Serialise(rest);
      PrintableTail(us);
      SplitPrinted(d, e, rest);
      if e < |d| {
        var next, _ := SplitUnfold(d, e);
        assert rest[0] == next;
      }
      UnitReadBack(d, c, u, e);
      var first, end := SplitUnfold(d, c);
      assert first == u && end == e;
      HeadAndTail(us);
    }
  }

  /** Printing then splitting is the identity on exactly the printable lists. */
  lemma RoundTrip(us: seq<Unit>)
    ensures OnBoundary(Serialise(us), 0)
    ensures Split(Serialise(us), 0) == us <==> Printable(us)
  {
    if us != [] {
      assert CodeAt(Serialise(us), if us[0].long then 1 else 0);
    }
    if Printable(us) {
      SplitPrinted(Serialise(us), 0, us);
    } else {
      SplitIsPrintable(Serialise(us), 0);
    }
  }

  lemma SerialiseTwo(us: seq<Unit>)
    requires |us| == 2
    ensures Serialise(us) == us[0].Bytes() + us[1].Bytes()
  {
    SerialiseCons(us[0], [us[1]]);
    SerialiseCons(us[1], []);
    assert us == [us[0]] + [us[1]] && [us[1]] == [us[1]] + [];
  }

  /** A list that breaks the zero rule: its first payload ends in 00 and a
      3-byte start code follows, so one zero changes sides. */
  lemma ZeroChangesSides()
    ensures var us := [Unit(false, [0x41, 0]), Unit(false, [0x41])];
            OnBoundary(Serialise(us), 0) && Split(Serialise(us), 0) == [Unit(false, [0x41]), Unit(true, [0x41])]
  {
    var us := [Unit(false, [0x41, 0]), Unit(false, [0x41])];
    var ws := [Unit(false, [0x41]), Unit(true, [0x41])];
    SerialiseTwo(us);
    SerialiseTwo(ws);
    assert Serialise(us) == [0, 0, 1, 0x41, 0, 0, 0, 1, 0x41] == Serialise(ws);
    SplitPrinted(Serialise(us), 0, ws);
  }
}
