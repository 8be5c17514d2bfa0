/**
 * The send pool under interleaving. Callers scan and fill slots under the lock,
 * one store at a time; slots are released at any moment. A second kind of caller
 * (ForceIFrame_Func) tests isValid before it takes the lock; its steps are Peek
 * and Late.
 */
module SlotRace {
  import opened Bytes
  import opened TalkPacket
  import opened ControlPackets
  import opened SendPool

  /** The part of a slot that matters here. owner is bookkeeping: the request
      whose caller last set isValid. */
  datatype Cell = Cell(valid: bool, nlength: nat, buf: seq<byte>, owner: Option<Request>)

  /** Where a caller is. base is the buffer as the caller found it. */
  datatype Pc =
    | Idle
    | Scan(r: Request, i: nat)
    | Fill(r: Request, i: nat, k: nat, base: seq<byte>)
    | Measured(r: Request, i: nat)
    | Leave
    | Peeked(r: Request, i: nat)

  datatype World = World(cells: seq<Cell>, lock: Option<nat>, pcs: map<nat, Pc>)

  datatype Step =
    | Acquire(t: nat, r: Request)
    | Look(t: nat)
    | Write(t: nat)
    | Publish(t: nat)
    | Unlock(t: nat)
    | Release(i: nat)
    | Peek(t: nat, r: Request, i: nat)
    | Late(t: nat)

  function PcOf(w: World, t: nat): Pc {
    if t in w.pcs then w.pcs[t] else Idle
  }

  predicate Shaped(w: World) {
    |w.cells| == UDPSENDMAX && forall i :: 0 <= i < |w.cells| ==> |w.cells[i].buf| == BUF_SIZE
  }

  predicate Enabled(w: World, st: Step) {
    Shaped(w) &&
    match st
    case Acquire(t, r) => PcOf(w, t).Idle? && w.lock.None? && r.Sized()
    case Look(t) => PcOf(w, t).Scan? && PcOf(w, t).i <= UDPSENDMAX
    case Write(t) =>
      var p := PcOf(w, t);
      p.Fill? && p.i < UDPSENDMAX && p.r.Sized() && p.k <= |Stores(p.r)|
    case Publish(t) => PcOf(w, t).Measured? && PcOf(w, t).i < UDPSENDMAX
    case Unlock(t) => PcOf(w, t).Leave?
    case Release(i) => i < UDPSENDMAX && w.cells[i].valid
    case Peek(t, r, i) => PcOf(w, t).Idle? && r.Sized() && i < UDPSENDMAX && !w.cells[i].valid
    case Late(t) => PcOf(w, t).Peeked? && PcOf(w, t).i < UDPSENDMAX && w.lock.None?
  }

  function Do(w: World, st: Step): World
    requires Enabled(w, st)
  {
    match st
    case Acquire(t, r) => World(w.cells, Some(t), w.pcs[t := Scan(r, 0)])
    case Look(t) =>
      var p := PcOf(w, t);
      var p' := if p.i == UDPSENDMAX then Leave
                else if !w.cells[p.i].valid then Fill(p.r, p.i, 0, w.cells[p.i].buf)
                else Scan(p.r, p.i + 1);
      w.(pcs := w.pcs[t := p'])
    case Write(t) =>
      var p := PcOf(w, t);
      StoresFit(p.r, BUF_SIZE);
      if p.k < |Stores(p.r)| then
        var s := Stores(p.r)[p.k];
        w.(cells := w.cells[p.i := w.cells[p.i].(buf := Splice(w.cells[p.i].buf, s.at, s.bytes))],
           pcs := w.pcs[t := Fill(p.r, p.i, p.k + 1, p.base)])
      else
        w.(cells := w.cells[p.i := w.cells[p.i].(nlength := p.r.Length())], pcs := w.pcs[t := Measured(p.r, p.i)])
    case Publish(t) =>
      var p := PcOf(w, t);
      w.(cells := w.cells[p.i := w.cells[p.i].(valid := true, owner := Some(p.r))], pcs := w.pcs[t := Leave])
    case Unlock(t) => World(w.cells, None, w.pcs[t := Idle])
    case Release(i) => w.(cells := w.cells[i := w.cells[i].(valid := false)])
    case Peek(t, r, i) => w.(pcs := w.pcs[t := Peeked(r, i)])
    case Late(t) =>
      var p := PcOf(w, t);
      World(w.cells, Some(t), w.pcs[t := Fill(p.r, p.i, 0, w.cells[p.i].buf)])
  }

  /** Nothing claimed yet; the buffers may hold anything. */
  predicate Initial(w: World) {
    Shaped(w) && w.lock.None? && w.pcs == map[] && forall i :: 0 <= i < |w.cells| ==> !w.cells[i].valid
  }

  // ---------------------------------------------------------------- invariant

  /** A valid slot holds the whole packet of the request that claimed it. */
  predicate WholePacket(c: Cell) {
    c.valid ==>
      && c.owner.Some? && c.owner.value.Sized() && c.nlength == c.owner.value.Length() <= |c.buf|
      && c.buf[..c.nlength] == Encode(c.owner.value)
  }

  /** What a caller at p relies on in the pool. */
  predicate Owns(w: World, p: Pc) {
    match p
    case Idle => true
    case Scan(r, i) => r.Sized() && i <= UDPSENDMAX
    case Fill(r, i, k, base) =>
      && r.Sized() && i < |w.cells| && !w.cells[i].valid && |base| == BUF_SIZE
      && k <= |Stores(r)| && Inside(Stores(r)[..k], BUF_SIZE) && w.cells[i].buf == Apply(base, Stores(r)[..k])
    case Measured(r, i) =>
      && r.Sized() && i < |w.cells| && !w.cells[i].valid && w.cells[i].nlength == r.Length() <= |w.cells[i].buf|
      && w.cells[i].buf[..r.Length()] == Encode(r)
    case Leave => true
    case Peeked(r, i) => r.Sized() && i < UDPSENDMAX
  }

  /** A caller between taking and leaving the lock. */
  predicate Locking(p: Pc) {
    !p.Idle? && !p.Peeked?
  }

  predicate Inv(w: World) {
    && Shaped(w)
    && (forall i :: 0 <= i < |w.cells| ==> WholePacket(w.cells[i]))
    && (forall t :: t in w.pcs && Locking(w.pcs[t]) ==> w.lock == Some(t))
    && (forall t :: t in w.pcs ==> Owns(w, w.pcs[t]))
  }

  lemma InitialInv(w: World)
    requires Initial(w)
    ensures Inv(w)
  {
  }

  /** A caller that looked early and now has the lock finds the slot still free. */
  predicate Timely(w: World, st: Step)
    requires Enabled(w, st)
  {
    st.Late? ==> !w.cells[PcOf(w, st.t).i].valid
  }

  lemma ApplyMore(base: seq<byte>, ws: seq<Store>, w: Store)
    requires Inside(ws, |base|) && Inside(ws + [w], |base|) && w.at + |w.bytes| <= |base|
    ensures Apply(base, ws + [w]) == Splice(Apply(base, ws), w.at, w.bytes)
  {
    TakeBack(ws, w);
  }

  lemma PrefixInside(ws: seq<Store>, k: nat, size: nat)
    requires k <= |ws| && Inside(ws, size)
    ensures Inside(ws[..k], size)
  {
  }

  lemma TakeOneMore<T>(s: seq<T>, k: nat)
    requires k < |s|
    ensures s[..k + 1] == s[..k] + [s[k]]
  {
  }

  lemma NextStore(ws: seq<Store>, base: seq<byte>, k: nat)
    requires k < |ws| && Inside(ws, |base|)
    ensures Inside(ws[..k], |base|) && Inside(ws[..k + 1], |base|) && ws[k].at + |ws[k].bytes| <= |base|
    ensures Apply(base, ws[..k + 1]) == Splice(Apply(base, ws[..k]), ws[k].at, ws[k].bytes)
  {
    PrefixInside(ws, k, |base|);
    PrefixInside(ws, k + 1, |base|);
    TakeOneMore(ws, k);
    ApplyMore(base, ws[..k], ws[k]);
  }

  /** Steps that move a caller and leave the slots alone. */
  lemma InvMove(w: World, st: Step)
    requires Inv(w) && Enabled(w, st) && Timely(w, st) && !st.Write? && !st.Publish? && !st.Release?
    ensures Inv(Do(w, st))
  {
    if st.Late? || st.Look? {
      NoStoresYet(w.cells, PcOf(w, st.t));
    }
  }

  lemma NoStoresYet(cells: seq<Cell>, p: Pc)
    requires (p.Peeked? || p.Scan?) && p.r.Sized()
    ensures Stores(p.r)[..0] == [] && Inside([], BUF_SIZE) && forall buf: seq<byte> :: Apply(buf, []) == buf
  {
  }

  /** One store of a caller into the slot it works on, or the length after the last. */
  lemma InvWrite(w: World, st: Step)
    requires Inv(w) && Enabled(w, st) && st.Write?
    ensures Inv(Do(w, st))
  {
    hide Apply, Stores, Encode, Splice;
    var p := PcOf(w, st.t);
    StoresFit(p.r, BUF_SIZE);
    if p.k < |Stores(p.r)| {
      NextStore(Stores(p.r), p.base, p.k);
    } else {
      BuiltPacket(p.base, p.r);
      assert Stores(p.r)[..p.k] == Stores(p.r);
    }
  }

  lemma InvFlag(w: World, st: Step)
    requires Inv(w) && Enabled(w, st) && (st.Publish? || st.Release?)
    ensures Inv(Do(w, st))
  {
  }

  /** The invariant survives a step of any thread unless it is a late one that
      finds its slot taken, and then it does not. */
  lemma InvStep(w: World, st: Step)
    requires Inv(w) && Enabled(w, st)
    ensures Inv(Do(w, st)) <==> Timely(w, st)
  {
    if !Timely(w, st) {
      assert !Owns(Do(w, st), Do(w, st).pcs[st.t]);
    } else if st.Write? {
      InvWrite(w, st);
    } else if st.Publish? || st.Release? {
      InvFlag(w, st);
    } else {
      InvMove(w, st);
    }
  }

  // --------------------------------------------------------------------- runs

  predicate Runs(w: World, sts: seq<Step>)
    decreases |sts|
  {
    sts == [] || (Enabled(w, sts[0]) && Runs(Do(w, sts[0]), sts[1..]))
  }

  function Outcome(w: World, sts: seq<Step>): World
    requires Runs(w, sts)
    decreases |sts|
  {
    if sts == [] then w else Outcome(Do(w, sts[0]), sts[1..])
  }

  predicate TimelyRun(w: World, sts: seq<Step>)
    requires Runs(w, sts)
    decreases |sts|
  {
    sts == [] || (Timely(w, sts[0]) && TimelyRun(Do(w, sts[0]), sts[1..]))
  }

  /** Callers that only scan under the lock are never late. */
  lemma {:induction false} LockedIsTimely(w: World, sts: seq<Step>)
    requires Runs(w, sts) && forall st :: st in sts ==> !st.Late?
    ensures TimelyRun(w, sts)
    decreases |sts|
  {
    if sts != [] {
      assert sts[0] in sts;
      LockedIsTimely(Do(w, sts[0]), sts[1..]);
    }
  }

  /** The slot a caller is working on. */
  predicate WorksOn(p: Pc, i: nat) {
    (p.Fill? || p.Measured?) && p.i == i
  }

  /** No two callers work on slot i, whoever does has the lock and the slot is not
      valid; a valid slot holds a whole packet. */
  ghost predicate SlotSafe(w: World, i: nat)
    requires i < |w.cells|
  {
    && WholePacket(w.cells[i])
    && (forall t: nat, u: nat :: WorksOn(PcOf(w, t), i) && WorksOn(PcOf(w, u), i) ==> t == u)
    && (forall t: nat :: WorksOn(PcOf(w, t), i) ==> !w.cells[i].valid && w.lock == Some(t))
  }

  ghost predicate Safe(w: World) {
    Shaped(w) && forall i :: 0 <= i < |w.cells| ==> SlotSafe(w, i)
  }

  ghost predicate SafeThroughout(w: World, sts: seq<Step>)
    requires Runs(w, sts)
    decreases |sts|
  {
    Safe(w) && (sts == [] || SafeThroughout(Do(w, sts[0]), sts[1..]))
  }

  lemma LateWorksOnValid(w: World, st: Step)
    requires Enabled(w, st) && !Timely(w, st)
    ensures !Safe(Do(w, st))
  {
    var i := PcOf(w, st.t).i;
    assert WorksOn(PcOf(Do(w, st), st.t), i) && Do(w, st).cells[i].valid;
    assert !SlotSafe(Do(w, st), i);
  }

  lemma {:induction false} SafeIffTimely(w: World, sts: seq<Step>)
    requires Inv(w) && Runs(w, sts)
    ensures SafeThroughout(w, sts) <==> TimelyRun(w, sts)
    ensures TimelyRun(w, sts) ==> Inv(Outcome(w, sts))
    decreases |sts|
  {
    assert Safe(w);
    if sts != [] {
      InvStep(w, sts[0]);
      if Timely(w, sts[0]) {
        SafeIffTimely(Do(w, sts[0]), sts[1..]);
      } else {
        LateWorksOnValid(w, sts[0]);
      }
    }
  }

  /** The slots are safe at every point of an interleaving exactly when no caller
      gets the lock after its early look went stale; so always, when all callers
      look under the lock. */
  lemma SlotsAreSafe(w: World, sts: seq<Step>)
    requires Initial(w) && Runs(w, sts)
    ensures SafeThroughout(w, sts) <==> TimelyRun(w, sts)
    ensures (forall st :: st in sts ==> !st.Late?) ==> SafeThroughout(w, sts)
  {
    InitialInv(w);
    SafeIffTimely(w, sts);
    if forall st :: st in sts ==> !st.Late? {
      LockedIsTimely(w, sts);
    }
  }

  lemma ValidIsFrozen(w: World, st: Step, i: nat)
    requires Inv(w) && Enabled(w, st) && Timely(w, st) && i < UDPSENDMAX
    requires w.cells[i].valid && st != Release(i)
    ensures Do(w, st).cells[i] == w.cells[i]
  {
  }

  /** From the moment isValid is set until the slot is released nothing in it changes. */
  lemma {:induction false} FrozenUntilReleased(w: World, sts: seq<Step>, i: nat)
    requires Inv(w) && Runs(w, sts) && TimelyRun(w, sts) && i < UDPSENDMAX
    requires w.cells[i].valid && Release(i) !in sts
    ensures i < |Outcome(w, sts).cells| && Outcome(w, sts).cells[i] == w.cells[i]
    decreases |sts|
  {
    if sts != [] {
      InvStep(w, sts[0]);
      ValidIsFrozen(w, sts[0], i);
      FrozenUntilReleased(Do(w, sts[0]), sts[1..], i);
    }
  }

  /** How often the lock was taken. */
  function Acquired(sts: seq<Step>): nat {
    if sts == [] then 0 else (if sts[0].Acquire? || sts[0].Late? then 1 else 0) + Acquired(sts[1..])
  }

  function Published(sts: seq<Step>): nat {
    if sts == [] then 0 else (if sts[0].Publish? then 1 else 0) + Published(sts[1..])
  }

  /** A call is under way that has not set isValid. */
  predicate Pending(w: World) {
    w.lock.Some? && (PcOf(w, w.lock.value).Scan? || PcOf(w, w.lock.value).Fill? || PcOf(w, w.lock.value).Measured?)
  }

  lemma PendingStep(w: World, st: Step)
    requires Inv(w) && Enabled(w, st)
    ensures (if st.Publish? then 1 else 0) + (if Pending(Do(w, st)) then 1 else 0)
            <= (if st.Acquire? || st.Late? then 1 else 0) + if Pending(w) then 1 else 0
  {
  }

  /** Each call claims at most one slot. */
  lemma {:induction false} OneClaimPerCall(w: World, sts: seq<Step>)
    requires Inv(w) && Runs(w, sts) && TimelyRun(w, sts)
    ensures Published(sts) <= Acquired(sts) + if Pending(w) then 1 else 0
    decreases |sts|
  {
    if sts != [] {
      InvStep(w, sts[0]);
      PendingStep(w, sts[0]);
      OneClaimPerCall(Do(w, sts[0]), sts[1..]);
    }
  }

  /** How far caller t has got in its scan. */
  function Passed(p: Pc): nat {
    if p.Scan? || p.Fill? || p.Measured? then p.i else 0
  }

  /** The slots caller t has passed over are valid, or freed since. */
  predicate PassedOver(w: World, t: nat, freed: set<nat>) {
    forall k: nat :: k < Passed(PcOf(w, t)) && k < |w.cells| ==> w.cells[k].valid || k in freed
  }

  function Frees(st: Step): set<nat> {
    if st.Release? then {st.i} else {}
  }

  function FreedIn(sts: seq<Step>): (freed: set<nat>)
    ensures forall k :: k in freed ==> Release(k) in sts
  {
    if sts == [] then {} else Frees(sts[0]) + FreedIn(sts[1..])
  }

  lemma PassedStep(w: World, st: Step, t: nat, freed: set<nat>)
    requires Inv(w) && Enabled(w, st) && st != Late(t) && PassedOver(w, t, freed)
    ensures PassedOver(Do(w, st), t, freed + Frees(st))
  {
  }

  lemma {:induction false} PassedRun(w: World, sts: seq<Step>, t: nat, freed: set<nat>)
    requires Inv(w) && Runs(w, sts) && TimelyRun(w, sts) && Late(t) !in sts && PassedOver(w, t, freed)
    ensures PassedOver(Outcome(w, sts), t, freed + FreedIn(sts)) && Inv(Outcome(w, sts))
    decreases |sts|
  {
    if sts == [] {
      assert freed + FreedIn(sts) == freed;
    } else {
      InvStep(w, sts[0]);
      PassedStep(w, sts[0], t, freed);
      PassedRun(Do(w, sts[0]), sts[1..], t, freed + Frees(sts[0]));
      assert freed + Frees(sts[0]) + FreedIn(sts[1..]) == freed + FreedIn(sts);
    }
  }

  /** The slot a scanning caller works on is free, and each one before it is valid
      or has been released since the run began; where nothing is released it is
      the first free slot of the pool. */
  lemma FirstSeenFree(w: World, sts: seq<Step>, t: nat, i: nat)
    requires Inv(w) && Runs(w, sts) && TimelyRun(w, sts) && Late(t) !in sts && PassedOver(w, t, {})
    ensures var z := Outcome(w, sts);
            Shaped(z) && (WorksOn(PcOf(z, t), i) ==>
              i < UDPSENDMAX && !z.cells[i].valid && forall k: nat :: k < i ==> z.cells[k].valid || Release(k) in sts)
  {
    PassedRun(w, sts, t, {});
    var z := Outcome(w, sts);
    if WorksOn(PcOf(z, t), i) {
      assert t in z.pcs && Owns(z, z.pcs[t]);
    }
  }

  // ------------------------------------------------- calls that come to an end

  lemma {:induction false} RunsJoin(w: World, a: seq<Step>, b: seq<Step>)
    requires Runs(w, a) && Runs(Outcome(w, a), b)
    ensures Runs(w, a + b) && Outcome(w, a + b) == Outcome(Outcome(w, a), b)
    decreases |a|
  {
    if a == [] {
      assert a + b == b;
    } else {
      assert (a + b)[1..] == a[1..] + b;
      RunsJoin(Do(w, a[0]), a[1..], b);
    }
  }

  lemma OneStep(w: World, a: Step)
    requires Enabled(w, a)
    ensures Runs(w, [a]) && Outcome(w, [a]) == Do(w, a)
  {
    assert [a][1..] == [];
    assert Runs(Do(w, a), []) && Outcome(Do(w, a), []) == Do(w, a);
  }

  lemma TwoSteps(w: World, a: Step, b: Step)
    requires Enabled(w, a) && Enabled(Do(w, a), b)
    ensures Runs(w, [a, b]) && Outcome(w, [a, b]) == Do(Do(w, a), b)
  {
    hide Enabled, Do;
    assert [a, b][1..] == [b];
    OneStep(Do(w, a), b);
  }

  lemma ThreeSteps(w: World, a: Step, b: Step, c: Step)
    requires Enabled(w, a) && Enabled(Do(w, a), b) && Enabled(Do(Do(w, a), b), c)
    ensures Runs(w, [a, b, c]) && Outcome(w, [a, b, c]) == Do(Do(Do(w, a), b), c)
  {
    hide Enabled, Do;
    assert [a, b, c][1..] == [b, c];
    TwoSteps(Do(w, a), b, c);
  }

  /** z is w with slot i filled and measured by t, and nothing else moved. */
  predicate FilledBy(w: World, z: World, t: nat, r: Request, i: nat, base: seq<byte>)
    requires i < |w.cells| && r.Sized() && |base| == BUF_SIZE && Inside(Stores(r), BUF_SIZE)
  {
    && z.lock == w.lock && z.pcs == w.pcs[t := Measured(r, i)]
    && z.cells == w.cells[i := Cell(w.cells[i].valid, r.Length(), Apply(base, Stores(r)), w.cells[i].owner)]
  }

  /** What happened to slot i before the rest was filled in makes no difference. */
  lemma FilledFrom(w: World, x: World, z: World, t: nat, r: Request, i: nat, base: seq<byte>, p: Pc, b: seq<byte>)
    requires i < |w.cells| && r.Sized() && |base| == BUF_SIZE && Inside(Stores(r), BUF_SIZE)
    requires x == w.(cells := w.cells[i := w.cells[i].(buf := b)], pcs := w.pcs[t := p]) && FilledBy(x, z, t, r, i, base)
    ensures FilledBy(w, z, t, r, i, base)
  {
    var c := Cell(w.cells[i].valid, r.Length(), Apply(base, Stores(r)), w.cells[i].owner);
    assert x.cells[i := c] == w.cells[i := c];
    assert x.pcs[t := Measured(r, i)] == w.pcs[t := Measured(r, i)];
  }

  /** A caller that has begun to fill a slot can go on to the end of the packet. */
  lemma {:induction false} FillOn(w: World, t: nat, r: Request, i: nat, k: nat, base: seq<byte>) returns (sts: seq<Step>)
    requires Shaped(w) && PcOf(w, t) == Fill(r, i, k, base) && i < UDPSENDMAX && |base| == BUF_SIZE
    requires r.Sized() && k <= |Stores(r)| && Inside(Stores(r), BUF_SIZE) && Inside(Stores(r)[..k], BUF_SIZE)
    requires w.cells[i].buf == Apply(base, Stores(r)[..k])
    ensures Runs(w, sts) && FilledBy(w, Outcome(w, sts), t, r, i, base)
    ensures forall st :: st in sts ==> st == Write(t)
    decreases |Stores(r)| - k
  {
    var z := Do(w, Write(t));
    if k < |Stores(r)| {
      NextStore(Stores(r), base, k);
      var more := FillOn(z, t, r, i, k + 1, base);
      sts := [Write(t)] + more;
      assert sts[1..] == more;
      FilledFrom(w, z, Outcome(z, more), t, r, i, base, Fill(r, i, k + 1, base), z.cells[i].buf);
    } else {
      assert Stores(r)[..k] == Stores(r);
      sts := [Write(t)];
      assert sts[1..] == [];
    }
  }

  /** At this step caller t looks at slot k and finds it valid. */
  predicate SeesValid(w: World, st: Step, t: nat, k: nat)
    requires Enabled(w, st)
  {
    st == Look(t) && PcOf(w, t).i == k && k < UDPSENDMAX && w.cells[k].valid
  }

  predicate SawValid(w: World, sts: seq<Step>, t: nat, k: nat)
    requires Runs(w, sts)
    decreases |sts|
  {
    sts != [] && (SeesValid(w, sts[0], t, k) || SawValid(Do(w, sts[0]), sts[1..], t, k))
  }

  /** A caller that has found a slot does not leave without publishing. */
  lemma {:induction false} HasToPublish(w: World, sts: seq<Step>, t: nat)
    requires Runs(w, sts) && Publish(t) !in sts
    requires PcOf(w, t).Peeked? || PcOf(w, t).Fill? || PcOf(w, t).Measured?
    ensures !PcOf(Outcome(w, sts), t).Leave?
    decreases |sts|
  {
    if sts != [] {
      assert sts[0] in sts;
      HasToPublish(Do(w, sts[0]), sts[1..], t);
    }
  }

  lemma {:induction false} ScansToTheEnd(w: World, sts: seq<Step>, t: nat, i: nat)
    requires Runs(w, sts) && Publish(t) !in sts && PcOf(w, t).Scan? && PcOf(w, t).i == i
    requires PcOf(Outcome(w, sts), t).Leave?
    ensures forall k: nat :: i <= k < UDPSENDMAX ==> SawValid(w, sts, t, k)
    decreases |sts|
  {
    if sts != [] {
      var z, rest := Do(w, sts[0]), sts[1..];
      if sts[0] != Look(t) {
        assert PcOf(z, t) == PcOf(w, t);
        ScansToTheEnd(z, rest, t, i);
      } else if i < UDPSENDMAX {
        if w.cells[i].valid {
          ScansToTheEnd(z, rest, t, i + 1);
          assert SeesValid(w, sts[0], t, i);
        } else {
          HasToPublish(z, rest, t);
        }
      }
    }
  }

  /** Whatever the others do: a caller that is about to leave without having
      published a packet has looked at all 50 slots and found each one valid. */
  lemma {:induction false} GivesUpOnFull(w: World, sts: seq<Step>, t: nat)
    requires Runs(w, sts) && PcOf(w, t).Idle?
    ensures PcOf(Outcome(w, sts), t).Leave? && Publish(t) !in sts ==> forall k: nat :: k < 50 ==> SawValid(w, sts, t, k)
    decreases |sts|
  {
    if sts != [] && PcOf(Outcome(w, sts), t).Leave? && Publish(t) !in sts {
      var z, rest := Do(w, sts[0]), sts[1..];
      assert forall st :: st in rest ==> st in sts;
      match PcOf(z, t) {
        case Idle => GivesUpOnFull(z, rest, t);
        case Scan(_, _) => ScansToTheEnd(z, rest, t, 0);
        case Peeked(_, _) => HasToPublish(z, rest, t);
      }
    }
  }

  /** The slots of the sequential pool, as far as they are told apart here. */
  predicate SamePool(cells: seq<Cell>, slots: seq<Slot>) {
    |cells| == |slots| && forall k :: 0 <= k < |cells| ==>
      cells[k].valid == slots[k].isValid && cells[k].nlength == slots[k].nlength && cells[k].buf == slots[k].buf
  }

  /** A step of a caller that looks under the lock. */
  predicate OwnStep(st: Step, t: nat) {
    match st
    case Acquire(u, _) => u == t
    case Look(u) => u == t
    case Write(u) => u == t
    case Publish(u) => u == t
    case Unlock(u) => u == t
    case _ => false
  }

  /** Alone, a scan gets to the first free slot, or past the last one. */
  lemma {:induction false} ScanOn(w: World, t: nat, r: Request, i: nat, f: nat) returns (sts: seq<Step>)
    requires Shaped(w) && PcOf(w, t) == Scan(r, i) && i <= f <= UDPSENDMAX
    requires (f < UDPSENDMAX ==> !w.cells[f].valid) && forall k :: 0 <= k < f ==> w.cells[k].valid
    ensures Runs(w, sts) && forall st :: st in sts ==> st == Look(t)
    ensures Outcome(w, sts) == w.(pcs := w.pcs[t := if f < UDPSENDMAX then Fill(r, f, 0, w.cells[f].buf) else Leave])
    decreases f - i
  {
    var z := Do(w, Look(t));
    if i == f {
      sts := [Look(t)];
      assert sts[1..] == [];
    } else {
      var more := ScanOn(z, t, r, i + 1, f);
      sts := [Look(t)] + more;
      assert sts[1..] == more;
    }
  }

  /** Alone, from the slot found to the unlock. */
  lemma FillAlone(w: World, t: nat, r: Request, f: nat) returns (sts: seq<Step>)
    requires Shaped(w) && r.Sized() && f < UDPSENDMAX && PcOf(w, t) == Fill(r, f, 0, w.cells[f].buf)
    ensures Runs(w, sts) && forall st :: st in sts ==> OwnStep(st, t)
    ensures Inside(Stores(r), BUF_SIZE)
    ensures Outcome(w, sts) ==
              World(w.cells[f := Cell(true, r.Length(), Apply(w.cells[f].buf, Stores(r)), Some(r))], None, w.pcs[t := Idle])
  {
    StoresFit(r, BUF_SIZE);
    var fill := FillOn(w, t, r, f, 0, w.cells[f].buf);
    var x := Outcome(w, fill);
    TwoSteps(x, Publish(t), Unlock(t));
    RunsJoin(w, fill, [Publish(t), Unlock(t)]);
    sts := fill + [Publish(t), Unlock(t)];
  }

  /** A call that nobody interferes with comes to its end and does to the slots what
      the sequential pool says: the first free one holds the packet, or nothing
      has changed if there is none. */
  lemma SoloCall(w: World, t: nat, r: Request, slots: seq<Slot>) returns (sts: seq<Step>)
    requires Shaped(w) && w.lock.None? && PcOf(w, t).Idle? && r.Sized() && SamePool(w.cells, slots)
    ensures Runs(w, sts) && forall st :: st in sts ==> OwnStep(st, t)
    ensures var z := Outcome(w, sts);
            && z.lock.None? && z.pcs == w.pcs[t := Idle] && SamePool(z.cells, Posted(slots, r))
            && if forall k :: 0 <= k < 50 ==> w.cells[k].valid then z.cells == w.cells
               else z.cells[FirstFree(slots)].owner == Some(r)
  {
    hide Apply, Stores, Encode, Splice, FirstFree;
    var f := FirstFree(slots);
    var a := Do(w, Acquire(t, r));
    OneStep(w, Acquire(t, r));
    var scan := ScanOn(a, t, r, 0, f);
    var x := Outcome(a, scan);
    var rest;
    if f < UDPSENDMAX {
      rest := FillAlone(x, t, r, f);
    } else {
      OneStep(x, Unlock(t));
      rest := [Unlock(t)];
    }
    RunsJoin(a, scan, rest);
    RunsJoin(w, [Acquire(t, r)], scan + rest);
    sts := [Acquire(t, r)] + (scan + rest);
  }

  function SlotsOf(cells: seq<Cell>): (slots: seq<Slot>)
    ensures SamePool(cells, slots)
  {
    seq(|cells|, k requires 0 <= k < |cells| => Slot(cells[k].valid, 0, 0, 0, 0, cells[k].nlength, cells[k].buf))
  }

  /** What is released can be claimed again: on a full pool the next call takes the
      slot just released, and no other changes. */
  lemma ReleasedIsTaken(w: World, t: nat, r: Request, i: nat) returns (sts: seq<Step>)
    requires Shaped(w) && w.lock.None? && PcOf(w, t).Idle? && r.Sized() && i < UDPSENDMAX
    requires forall k :: 0 <= k < UDPSENDMAX ==> w.cells[k].valid
    ensures Runs(w, [Release(i)] + sts) && forall st :: st in sts ==> OwnStep(st, t)
    ensures var z := Outcome(w, [Release(i)] + sts);
            && Shaped(z) && z.lock.None? && z.cells[i].valid && z.cells[i].owner == Some(r)
            && z.cells[i].nlength == r.Length() && z.cells[i].buf[..r.Length()] == Encode(r)
            && forall k :: 0 <= k < UDPSENDMAX && k != i ==>
                 z.cells[k].valid && z.cells[k].nlength == w.cells[k].nlength && z.cells[k].buf == w.cells[k].buf
  {
    hide Apply, Stores, Encode, Splice;
    var x := Do(w, Release(i));
    OneStep(w, Release(i));
    var slots := SlotsOf(x.cells);
    FirstFreeIs(slots, i);
    sts := SoloCall(x, t, r, slots);
    RunsJoin(w, [Release(i)], sts);
    StoresFit(r, BUF_SIZE);
    PostedHolds(slots, r);
  }

  // --------------------------------------------- callers that look too early

  /** Caller 1 looks at slot 0 without the lock; caller 2 then claims it. */
  lemma LookThenClaim(w: World, late: Request, own: Request) returns (sts: seq<Step>)
    requires Initial(w) && late.Sized() && own.Sized()
    ensures Runs(w, sts)
    ensures var z := Outcome(w, sts);
            Shaped(z) && z.lock == Some(2) && PcOf(z, 1) == Peeked(late, 0) && PcOf(z, 2) == Measured(own, 0)
  {
    hide Encode, Stores, Splice;
    StoresFit(own, BUF_SIZE);
    ThreeSteps(w, Peek(1, late, 0), Acquire(2, own), Look(2));
    var opening := [Peek(1, late, 0), Acquire(2, own), Look(2)];
    var fill := FillOn(Outcome(w, opening), 2, own, 0, 0, w.cells[0].buf);
    RunsJoin(w, opening, fill);
    sts := opening + fill;
  }

  /** Caller 2 publishes and leaves, caller 1 gets the lock and writes. */
  lemma LateWrites(w: World, late: Request, own: Request) returns (sts: seq<Step>)
    requires Shaped(w) && late.Sized() && own.Sized() && w.lock == Some(2)
    requires PcOf(w, 1) == Peeked(late, 0) && PcOf(w, 2) == Measured(own, 0)
    ensures Runs(w, sts) && Shaped(Outcome(w, sts))
    ensures var c := Outcome(w, sts).cells[0];
            && c.valid && c.owner == Some(own) && c.nlength == late.Length()
            && c.buf[..late.Length()] == Encode(late)
  {
    hide Encode, Stores, Splice;
    StoresFit(late, BUF_SIZE);
    ThreeSteps(w, Publish(2), Unlock(2), Late(1));
    var handover := [Publish(2), Unlock(2), Late(1)];
    var z := Outcome(w, handover);
    var overwrite := FillOn(z, 1, late, 0, 0, z.cells[0].buf);
    BuiltPacket(z.cells[0].buf, late);
    RunsJoin(w, handover, overwrite);
    sts := handover + overwrite;
  }

  /** Why the lock has to cover the test: a caller that sees slot 0 free and only
      then waits for the lock writes its packet over another caller's, which is
      valid and being sent. So for any two different packets, the late one being
      ForceIFrame_Func's in the library. */
  lemma EarlyLookOverwrites(w: World, late: Request, own: Request) returns (sts: seq<Step>)
    requires Initial(w) && late.Sized() && own.Sized() && late != own
    ensures Runs(w, sts) && !TimelyRun(w, sts) && Shaped(Outcome(w, sts))
    ensures var c := Outcome(w, sts).cells[0];
            && c.valid && c.owner == Some(own) && c.nlength == late.Length()
            && c.buf[..late.Length()] == Encode(late) && !WholePacket(c)
  {
    var first := LookThenClaim(w, late, own);
    var second := LateWrites(Outcome(w, first), late, own);
    RunsJoin(w, first, second);
    sts := first + second;
    DecodeEncode(late);
    DecodeEncode(own);
    InitialInv(w);
    SafeIffTimely(w, sts);
  }
}
