// The inter-processor interrupts of machine/mtrap.c: send_ipi and send_ipi_many on many
// harts, as interleaved steps that each access shared memory at most once.

module Ipi {
  datatype Event = Soft | FenceI | SfenceVma

  // Where a hart stands. Send and Raise are the first loop of send_ipi_many, Poll and
  // Swap the second; Taking is the interrupt handler after it cleared ipi.
  datatype Pc =
    | Idle
    | Send(i: nat)                  // about to look at bit i of the mask
    | Raise(i: nat)                 // between the two writes of send_ipi
    | Poll(i: nat, incoming: bool)  // about to read hart i's ipi
    | Swap(i: nat, incoming: bool)  // saw it set, about to consume its own
    | Restore                       // about to write its own back
    | Taking

  // A hart's ipi word (set or not), its pending events, its place and its current or last
  // call, with the times at which the call set each target's ipi and saw it clear.
  datatype Hart = Hart(ipi: bool, pending: set<Event>, pc: Pc, mask: set<nat>, event: Event,
                       raisedAt: map<nat, nat>, seenAt: map<nat, nat>)

  datatype State = State(harts: seq<Hart>, time: nat)

  datatype Step = Call(mask: set<nat>, event: Event) | Run | Interrupt

  // m != 0 once i bits are shifted out.
  predicate More(mask: set<nat>, i: nat) { exists j :: j in mask && i <= j }

  predicate CanStep(s: State, off: set<nat>, h: nat, a: Step) {
    && h < |s.harts| && h !in off
    && match a
       case Call(mask, _) => s.harts[h].pc.Idle? && InRange(mask, |s.harts|)
       case Interrupt => s.harts[h].pc.Idle? && s.harts[h].ipi
       case Run =>
         && !s.harts[h].pc.Idle? && InRange(s.harts[h].mask, |s.harts|)
         && (s.harts[h].pc.Raise? ==> s.harts[h].pc.i < |s.harts|)
  }

  predicate InRange(mask: set<nat>, n: nat) { forall j :: j in mask ==> j < n }

  function Put(s: State, h: nat, x: Hart): State
    requires h < |s.harts|
  {
    State(s.harts[h := x], s.time + 1)
  }

  // One step of hart h.
  function Do(s: State, off: set<nat>, h: nat, a: Step): State
    requires CanStep(s, off, h, a)
  {
    var x := s.harts[h];
    match a
    case Call(mask, event) => Put(s, h, Hart(x.ipi, x.pending, Send(0), mask, event, map[], map[]))
    case Interrupt => Put(s, h, x.(ipi := false, pc := Taking))
    case Run =>
      match x.pc
      case Send(i) =>
        if !More(x.mask, i) then Put(s, h, x.(pc := if x.event.Soft? then Idle else Poll(0, false)))
        else if i !in x.mask || i in off then Put(s, h, x.(pc := Send(i + 1)))
        else
          var t := s.harts[i := s.harts[i].(pending := s.harts[i].pending + {x.event})];
          State(t[h := t[h].(pc := Raise(i))], s.time + 1)
      case Raise(i) =>
        var t := s.harts[i := s.harts[i].(ipi := true)];
        State(t[h := t[h].(pc := Send(i + 1), raisedAt := x.raisedAt[i := s.time])], s.time + 1)
      case Poll(i, incoming) =>
        if !More(x.mask, i) then Put(s, h, x.(pc := if incoming then Restore else Idle))
        else if i !in x.mask then Put(s, h, x.(pc := Poll(i + 1, incoming)))
        else if s.harts[i].ipi then Put(s, h, x.(pc := Swap(i, incoming)))
        else Put(s, h, x.(pc := Poll(i + 1, incoming), seenAt := x.seenAt[i := s.time]))
      case Swap(i, incoming) => Put(s, h, x.(ipi := false, pc := Poll(i, incoming || x.ipi)))
      case Restore => Put(s, h, x.(ipi := true, pc := Idle))
      case Taking => Put(s, h, x.(pending := {}, pc := Idle))
      case Idle => s
  }

  // ---- What every reachable state keeps ----

  // Every enabled target below i had its ipi set.
  predicate RaisedBelow(mask: set<nat>, raisedAt: map<nat, nat>, off: set<nat>, i: nat, time: nat) {
    forall t :: t in mask && t !in off && t < i ==> t in raisedAt && raisedAt[t] < time
  }

  // Every enabled target below i was seen clear after it was set.
  predicate SeenBelow(x: Hart, off: set<nat>, i: nat, time: nat) {
    ClearBelow(x.mask, x.raisedAt, x.seenAt, off, i, time)
  }

  predicate ClearBelow(mask: set<nat>, raisedAt: map<nat, nat>, seenAt: map<nat, nat>, off: set<nat>, i: nat,
                       time: nat) {
    forall t :: t in mask && t !in off && t < i ==> t in seenAt && t in raisedAt && raisedAt[t] < seenAt[t] < time
  }

  // A hart's own account of its call, among n harts.
  predicate Account(x: Hart, n: nat, off: set<nat>, time: nat) {
    && InRange(x.mask, n)
    && match x.pc
       case Idle => RaisedBelow(x.mask, x.raisedAt, off, n, time) && (!x.event.Soft? ==> SeenBelow(x, off, n, time))
       case Send(i) => i <= n && RaisedBelow(x.mask, x.raisedAt, off, i, time)
       case Raise(i) => i < n && i in x.mask && i !in off && RaisedBelow(x.mask, x.raisedAt, off, i, time)
       case Poll(i, _) =>
         i <= n && !x.event.Soft? && RaisedBelow(x.mask, x.raisedAt, off, n, time) && SeenBelow(x, off, i, time)
       case Swap(i, _) =>
         i < n && i in x.mask && !x.event.Soft? && RaisedBelow(x.mask, x.raisedAt, off, n, time) &&
         SeenBelow(x, off, i, time)
       case Restore => !x.event.Soft? && RaisedBelow(x.mask, x.raisedAt, off, n, time) && SeenBelow(x, off, n, time)
       case Taking => RaisedBelow(x.mask, x.raisedAt, off, n, time) && (!x.event.Soft? ==> SeenBelow(x, off, n, time))
  }

  predicate Local(s: State, off: set<nat>, h: nat)
    requires h < |s.harts|
  {
    Account(s.harts[h], |s.harts|, off, s.time)
  }

  // The hart will restore an interrupt it consumed.
  predicate Holding(pc: Pc) {
    match pc
    case Poll(_, incoming) => incoming
    case Swap(_, incoming) => incoming
    case Restore => true
    case _ => false
  }

  predicate RaisedSoon(s: State, h: nat) {
    exists k :: 0 <= k < |s.harts| && s.harts[k].pc == Raise(h)
  }

  // Pending events will be noticed.
  predicate Guarded(s: State, h: nat)
    requires h < |s.harts|
  {
    var x := s.harts[h];
    x.pending != {} ==> x.ipi || RaisedSoon(s, h) || Holding(x.pc) || x.pc.Taking?
  }

  // A disabled hart neither runs nor is interrupted.
  predicate Off(x: Hart) { !x.ipi && x.pending == {} && x.pc.Idle? }

  predicate Ok(s: State, off: set<nat>) {
    forall h :: 0 <= h < |s.harts| ==> Local(s, off, h) && Guarded(s, h) && (h in off ==> Off(s.harts[h]))
  }

  predicate Initial(s: State) {
    forall h :: 0 <= h < |s.harts| ==> var x := s.harts[h]; Off(x) && x.mask == {}
  }

  lemma InitialOk(s: State, off: set<nat>)
    requires Initial(s)
    ensures Ok(s, off)
  {
  }

  // A hart's own view of its call survives what others do.
  lemma LocalStays(s: State, s': State, off: set<nat>, h: nat)
    requires h < |s.harts| == |s'.harts| && s.time <= s'.time && Local(s, off, h)
    requires var (x, x') := (s.harts[h], s'.harts[h]);
             x'.pc == x.pc && x'.mask == x.mask && x'.event == x.event && x'.raisedAt == x.raisedAt &&
             x'.seenAt == x.seenAt
    ensures Local(s', off, h)
  {
  }

  lemma NoMore(mask: set<nat>, n: nat, i: nat)
    requires InRange(mask, n)
    ensures !More(mask, i) ==> InRange(mask, i)
    ensures More(mask, i) ==> i < n
  {
  }

  // Moving on from bit i to bit j, later.
  lemma RaisedOn(mask: set<nat>, raisedAt: map<nat, nat>, off: set<nat>, i: nat, j: nat, time: nat)
    requires RaisedBelow(mask, raisedAt, off, i, time) && forall t :: t in mask && t !in off && i <= t ==> j <= t
    ensures RaisedBelow(mask, raisedAt, off, j, time + 1)
  {
  }

  lemma ClearOn(mask: set<nat>, raisedAt: map<nat, nat>, seenAt: map<nat, nat>, off: set<nat>, i: nat, j: nat,
                time: nat)
    requires ClearBelow(mask, raisedAt, seenAt, off, i, time) && forall t :: t in mask && t !in off && i <= t ==> j <= t
    ensures ClearBelow(mask, raisedAt, seenAt, off, j, time + 1)
  {
  }

  lemma RaisedNow(mask: set<nat>, raisedAt: map<nat, nat>, off: set<nat>, i: nat, time: nat)
    requires RaisedBelow(mask, raisedAt, off, i, time)
    ensures RaisedBelow(mask, raisedAt[i := time], off, i + 1, time + 1)
  {
  }

  lemma ClearNow(mask: set<nat>, raisedAt: map<nat, nat>, seenAt: map<nat, nat>, off: set<nat>, n: nat, i: nat,
                 time: nat)
    requires ClearBelow(mask, raisedAt, seenAt, off, i, time) && RaisedBelow(mask, raisedAt, off, n, time) && i < n
    ensures ClearBelow(mask, raisedAt, seenAt[i := time], off, i + 1, time + 1)
  {
  }

  // The stepping hart's own account.
  lemma LocalStep(s: State, off: set<nat>, h: nat, a: Step)
    requires CanStep(s, off, h, a) && Local(s, off, h)
    ensures |Do(s, off, h, a).harts| == |s.harts| && Local(Do(s, off, h, a), off, h)
  {
    hide RaisedBelow, ClearBelow, More;
    var (x, n, time) := (s.harts[h], |s.harts|, s.time);
    var (mask, raisedAt, seenAt) := (x.mask, x.raisedAt, x.seenAt);
    RaisedNone(x.mask, off, time + 1);
    if a.Call? {
      RaisedNone(a.mask, off, time + 1);
    } else {
      match x.pc
      case Idle => StillAll(x, n, off, time);
      case Send(i) =>
        NoMore(mask, n, i);
        RaisedOn(mask, raisedAt, off, i, i, time);
        ClearNone(mask, raisedAt, off, time + 1);
        if !More(mask, i) {
          RaisedOn(mask, raisedAt, off, i, n, time);
        } else if i !in mask || i in off {
          RaisedOn(mask, raisedAt, off, i, i + 1, time);
        }
      case Raise(i) => RaisedNow(mask, raisedAt, off, i, time);
      case Poll(i, _) =>
        NoMore(mask, n, i);
        RaisedOn(mask, raisedAt, off, n, n, time);
        ClearOn(mask, raisedAt, seenAt, off, i, i, time);
        if !More(mask, i) {
          ClearOn(mask, raisedAt, seenAt, off, i, n, time);
        } else if i !in mask {
          ClearOn(mask, raisedAt, seenAt, off, i, i + 1, time);
        } else {
          ClearNow(mask, raisedAt, seenAt, off, n, i, time);
        }
      case Swap(i, _) =>
        RaisedOn(mask, raisedAt, off, n, n, time);
        ClearOn(mask, raisedAt, seenAt, off, i, i, time);
      case Restore => StillAll(x, n, off, time);
      case Taking => StillAll(x, n, off, time);
    }
  }

  lemma RaisedNone(mask: set<nat>, off: set<nat>, time: nat)
    ensures RaisedBelow(mask, map[], off, 0, time)
  {
  }

  lemma ClearNone(mask: set<nat>, raisedAt: map<nat, nat>, off: set<nat>, time: nat)
    ensures forall seenAt :: ClearBelow(mask, raisedAt, seenAt, off, 0, time)
  {
  }

  lemma StillAll(x: Hart, n: nat, off: set<nat>, time: nat)
    requires RaisedBelow(x.mask, x.raisedAt, off, n, time)
    ensures RaisedBelow(x.mask, x.raisedAt, off, n, time + 1)
    ensures SeenBelow(x, off, n, time) ==> ClearBelow(x.mask, x.raisedAt, x.seenAt, off, n, time + 1)
  {
  }

  // What a step leaves of another hart.
  lemma OthersStep(s: State, off: set<nat>, h: nat, a: Step, k: nat)
    requires CanStep(s, off, h, a) && Local(s, off, h) && k < |s.harts| && k != h
    ensures var (x, x') := (s.harts[k], Do(s, off, h, a).harts[k]);
            && x'.pc == x.pc && x'.mask == x.mask && x'.event == x.event && x'.raisedAt == x.raisedAt &&
                 x'.seenAt == x.seenAt
            && x.pending <= x'.pending
            && (x.ipi ==> x'.ipi)
            && (x'.pending != x.pending ==> Do(s, off, h, a).harts[h].pc == Raise(k))
            && (k in off ==> x' == x)
  {
  }

  lemma GuardedStep(s: State, off: set<nat>, h: nat, a: Step, k: nat)
    requires Ok(s, off) && CanStep(s, off, h, a) && k < |s.harts|
    ensures |Do(s, off, h, a).harts| == |s.harts| && Guarded(Do(s, off, h, a), k)
  {
    var s' := Do(s, off, h, a);
    assert Guarded(s, k) && Local(s, off, h);
    if s'.harts[k].pending != {} && RaisedSoon(s, k) {
      var j :| 0 <= j < |s.harts| && s.harts[j].pc == Raise(k);
      if j != h {
        OthersStep(s, off, h, a, j);
        assert s'.harts[j].pc == Raise(k);
      }
    }
    if k != h {
      OthersStep(s, off, h, a, k);
      assert s'.harts[h].pc == Raise(k) ==> RaisedSoon(s', k);
    } else if a.Run? && s.harts[h].pc.Send? && s'.harts[h].pc == Raise(h) {
      assert RaisedSoon(s', h);
    }
  }

  // Every step of every hart keeps all of it: no interrupt is lost.
  lemma StepOk(s: State, off: set<nat>, h: nat, a: Step)
    requires Ok(s, off) && CanStep(s, off, h, a)
    ensures Ok(Do(s, off, h, a), off)
  {
    hide Local, Guarded;
    var s' := Do(s, off, h, a);
    LocalStep(s, off, h, a);
    forall k | 0 <= k < |s'.harts|
      ensures Local(s', off, k) && Guarded(s', k) && (k in off ==> Off(s'.harts[k]))
    {
      GuardedStep(s, off, h, a, k);
      if k != h {
        OthersStep(s, off, h, a, k);
        LocalStays(s, s', off, k);
      }
    }
  }

  // ---- Runs ----

  datatype Move = Move(hart: nat, step: Step)

  predicate Valid(s: State, off: set<nat>, moves: seq<Move>)
    decreases |moves|
  {
    moves == [] ||
    (CanStep(s, off, moves[0].hart, moves[0].step) && Valid(Do(s, off, moves[0].hart, moves[0].step), off, moves[1..]))
  }

  function After(s: State, off: set<nat>, moves: seq<Move>): State
    requires Valid(s, off, moves)
    decreases |moves|
  {
    if moves == [] then s else After(Do(s, off, moves[0].hart, moves[0].step), off, moves[1..])
  }

  lemma {:induction false} RunOk(s: State, off: set<nat>, moves: seq<Move>)
    requires Ok(s, off) && Valid(s, off, moves)
    ensures Ok(After(s, off, moves), off) && |After(s, off, moves).harts| == |s.harts|
    ensures After(s, off, moves).time == s.time + |moves|
    decreases |moves|
  {
    hide Ok;
    if moves != [] {
      var (h, a) := (moves[0].hart, moves[0].step);
      StepOk(s, off, h, a);
      StepTime(s, off, h, a);
      RunOk(Do(s, off, h, a), off, moves[1..]);
    }
  }

  lemma StepTime(s: State, off: set<nat>, h: nat, a: Step)
    requires CanStep(s, off, h, a)
    ensures Do(s, off, h, a).time == s.time + 1 && |Do(s, off, h, a).harts| == |s.harts|
  {
  }

  // Whatever the interleaving, pending events stay guarded.
  lemma NoIpiLost(s: State, off: set<nat>, moves: seq<Move>, h: nat)
    requires Initial(s) && Valid(s, off, moves) && h < |s.harts|
    ensures |After(s, off, moves).harts| == |s.harts|
    ensures var s' := After(s, off, moves);
            s'.harts[h].pending != {} ==>
              h !in off && (s'.harts[h].ipi || RaisedSoon(s', h) || Holding(s'.harts[h].pc) || s'.harts[h].pc.Taking?)
  {
    InitialOk(s, off);
    RunOk(s, off, moves);
    var s' := After(s, off, moves);
    assert Guarded(s', h) && (h in off ==> Off(s'.harts[h]));
  }

  lemma {:induction false} Longer(s: State, off: set<nat>, a: seq<Move>, b: seq<Move>)
    requires Valid(s, off, a)
    ensures Valid(s, off, a + b) <==> Valid(After(s, off, a), off, b)
    ensures Valid(s, off, a + b) ==> After(s, off, a + b) == After(After(s, off, a), off, b)
    decreases |a|
  {
    if a == [] {
      assert a + b == b;
    } else {
      assert (a + b)[0] == a[0] && (a + b)[1..] == a[1..] + b;
      Longer(Do(s, off, a[0].hart, a[0].step), off, a[1..], b);
    }
  }

  lemma OneMove(s: State, off: set<nat>, h: nat, a: Step)
    requires CanStep(s, off, h, a)
    ensures Valid(s, off, [Move(h, a)]) && After(s, off, [Move(h, a)]) == Do(s, off, h, a)
  {
    assert [Move(h, a)][1..] == [];
  }

  // The last move of a run.
  lemma LastMove(s: State, off: set<nat>, moves: seq<Move>)
    requires Valid(s, off, moves) && moves != []
    ensures var (before, m) := (moves[..|moves| - 1], moves[|moves| - 1]);
            && Valid(s, off, before)
            && CanStep(After(s, off, before), off, m.hart, m.step)
            && After(s, off, moves) == Do(After(s, off, before), off, m.hart, m.step)
    decreases |moves|
  {
    var n := |moves| - 1;
    if n > 0 {
      var t := Do(s, off, moves[0].hart, moves[0].step);
      LastMove(t, off, moves[1..]);
      assert moves[1..][..n - 1] == moves[..n][1..];
    } else {
      assert moves[1..] == [];
    }
  }

  // The recorded times are those of the run: hart h saw t's ipi clear at seenAt and set
  // it at raisedAt.
  lemma {:induction false} Recorded(s: State, off: set<nat>, moves: seq<Move>, h: nat, t: nat)
    requires Initial(s) && s.time == 0 && Valid(s, off, moves) && h < |s.harts|
    requires forall k :: 0 <= k < |s.harts| ==> s.harts[k].seenAt == map[] && s.harts[k].raisedAt == map[]
    ensures |After(s, off, moves).harts| == |s.harts|
    ensures var x := After(s, off, moves).harts[h];
            && (t in x.seenAt ==> SawClear(s, off, moves, x.seenAt[t], h, t))
            && (t in x.raisedAt ==> SetBy(s, off, moves, x.raisedAt[t], h, t))
    decreases |moves|
  {
    hide Valid, SawClear, SetBy, Ok;
    InitialOk(s, off);
    RunOk(s, off, moves);
    if moves == [] {
      NoMoves(s, off, moves);
    } else {
      var before, m := moves[..|moves| - 1], moves[|moves| - 1];
      LastMove(s, off, moves);
      RunOk(s, off, before);
      Recorded(s, off, before, h, t);
      var p := After(s, off, before);
      RecordStep(p, off, m.hart, m.step, h, t);
      Later(s, off, moves, h, t);
      Now(s, off, moves, h, t);
    }
  }

  lemma Now(s: State, off: set<nat>, moves: seq<Move>, h: nat, t: nat)
    requires moves != [] && Valid(s, off, moves)
    ensures Valid(s, off, moves[..|moves| - 1])
    ensures var (k, p) := (|moves| - 1, After(s, off, moves[..|moves| - 1]));
            && ((t < |p.harts| && !p.harts[t].ipi && moves[k].hart == h
                 && h < |p.harts| && p.harts[h].pc.Poll? && p.harts[h].pc.i == t) ==> SawClear(s, off, moves, k, h, t))
            && ((t < |After(s, off, moves).harts| && After(s, off, moves).harts[t].ipi && moves[k].hart == h
                 && h < |p.harts| && p.harts[h].pc == Raise(t)) ==> SetBy(s, off, moves, k, h, t))
  {
    LastMove(s, off, moves);
    assert moves[..|moves| - 1 + 1] == moves;
  }

  // Move k of the run is h reading t's ipi and finding it clear.
  ghost predicate SawClear(s: State, off: set<nat>, moves: seq<Move>, k: nat, h: nat, t: nat) {
    && k < |moves| && Valid(s, off, moves[..k]) && moves[k].hart == h
    && var p := After(s, off, moves[..k]);
       && t < |p.harts| && !p.harts[t].ipi
       && h < |p.harts| && p.harts[h].pc.Poll? && p.harts[h].pc.i == t
  }

  // Move k of the run is h setting t's ipi.
  ghost predicate SetBy(s: State, off: set<nat>, moves: seq<Move>, k: nat, h: nat, t: nat)
  {
    && k < |moves| && Valid(s, off, moves[..k]) && Valid(s, off, moves[..k + 1]) && moves[k].hart == h
    && t < |After(s, off, moves[..k + 1]).harts| && After(s, off, moves[..k + 1]).harts[t].ipi
    && h < |After(s, off, moves[..k]).harts| && After(s, off, moves[..k]).harts[h].pc == Raise(t)
  }

  lemma NoMoves(s: State, off: set<nat>, moves: seq<Move>)
    requires moves == []
    ensures Valid(s, off, moves) && After(s, off, moves) == s
  {
  }

  // What one step records.
  lemma RecordStep(s: State, off: set<nat>, h: nat, a: Step, k: nat, t: nat)
    requires CanStep(s, off, h, a) && k < |s.harts|
    ensures |Do(s, off, h, a).harts| == |s.harts|
    ensures var (x, x') := (s.harts[k], Do(s, off, h, a).harts[k]);
            && (t in x'.seenAt ==> (t in x.seenAt && x'.seenAt[t] == x.seenAt[t])
                                   || (x'.seenAt[t] == s.time && h == k && x.pc.Poll? && x.pc.i == t && t < |s.harts| &&
                                   !s.harts[t].ipi))
            && (t in x'.raisedAt ==> (t in x.raisedAt && x'.raisedAt[t] == x.raisedAt[t])
                                     || (x'.raisedAt[t] == s.time && h == k && x.pc == Raise(t) && t < |s.harts| &&
                                     Do(s, off, h, a).harts[t].ipi))
  {
  }

  // What held at a time of a run holds at it in the run continued.
  lemma Later(s: State, off: set<nat>, moves: seq<Move>, h: nat, t: nat)
    requires moves != [] && Valid(s, off, moves)
    ensures var before := moves[..|moves| - 1];
            && (forall k :: SawClear(s, off, before, k, h, t) ==> SawClear(s, off, moves, k, h, t))
            && (forall k :: SetBy(s, off, before, k, h, t) ==> SetBy(s, off, moves, k, h, t))
  {
    var before := moves[..|moves| - 1];
    assert forall k :: 0 <= k <= |before| ==> before[..k] == moves[..k];
  }

  // Nothing has been recorded yet.
  predicate Fresh(s: State) {
    && Initial(s) && s.time == 0
    && forall k :: 0 <= k < |s.harts| ==> s.harts[k].seenAt == map[] && s.harts[k].raisedAt == map[]
  }

  // Move c of the run is the call that hart h is in, or was in last.
  ghost predicate CallOf(moves: seq<Move>, c: nat, h: nat, mask: set<nat>, event: Event) {
    && c < |moves| && moves[c] == Move(h, Call(mask, event))
    && forall j :: c < j < |moves| && moves[j].hart == h ==> !moves[j].step.Call?
  }

  // All that a hart has recorded it recorded in its last call.
  lemma {:induction false} LastCall(s: State, off: set<nat>, moves: seq<Move>, h: nat) returns (c: nat)
    requires Fresh(s) && Valid(s, off, moves) && h < |s.harts| == |After(s, off, moves).harts|
    requires After(s, off, moves).harts[h].mask != {}
    ensures var x := After(s, off, moves).harts[h];
            && CallOf(moves, c, h, x.mask, x.event)
            && (forall t :: t in x.raisedAt ==> c < x.raisedAt[t])
            && (forall t :: t in x.seenAt ==> c < x.seenAt[t])
    decreases |moves|
  {
    hide Valid, Ok;
    InitialOk(s, off);
    if moves == [] {
      NoMoves(s, off, moves);
    } else {
      var before, m := moves[..|moves| - 1], moves[|moves| - 1];
      LastMove(s, off, moves);
      RunOk(s, off, before);
      RunOk(s, off, moves);
      var p := After(s, off, before);
      SameCall(p, off, m.hart, m.step, h);
      if m.hart == h && m.step.Call? {
        c := |before|;
      } else {
        c := LastCall(s, off, before, h);
        forall t
          ensures var x := After(s, off, moves).harts[h];
                  (t in x.raisedAt ==> c < x.raisedAt[t]) && (t in x.seenAt ==> c < x.seenAt[t])
        {
          RecordStep(p, off, m.hart, m.step, h, t);
        }
      }
    }
  }

  // Only its own call changes what a hart is called for.
  lemma SameCall(s: State, off: set<nat>, h: nat, a: Step, k: nat)
    requires CanStep(s, off, h, a) && k < |s.harts|
    ensures |Do(s, off, h, a).harts| == |s.harts|
    ensures var (x, x') := (s.harts[k], Do(s, off, h, a).harts[k]);
            if h == k && a.Call?
            then x'.mask == a.mask && x'.event == a.event && x'.raisedAt == map[] && x'.seenAt == map[]
            else x'.mask == x.mask && x'.event == x.event
  {
  }

  // When a call other than for IPI_SOFT has returned, then for each enabled target there
  // are two moves of this call: one set the target's ipi, and a later one read it clear.
  lemma ReturnedSeen(s: State, off: set<nat>, moves: seq<Move>, h: nat, t: nat) returns (c: nat, raised: nat, seen: nat)
    requires Fresh(s) && Valid(s, off, moves) && h < |s.harts| && |After(s, off, moves).harts| == |s.harts|
    requires var x := After(s, off, moves).harts[h]; x.pc.Idle? && !x.event.Soft? && t in x.mask && t !in off
    ensures var x := After(s, off, moves).harts[h]; CallOf(moves, c, h, x.mask, x.event)
    ensures SetBy(s, off, moves, raised, h, t) && SawClear(s, off, moves, seen, h, t) && c < raised < seen
  {
    hide SetBy, SawClear, Valid;
    InitialOk(s, off);
    RunOk(s, off, moves);
    Recorded(s, off, moves, h, t);
    var s' := After(s, off, moves);
    assert Local(s', off, h);
    c := LastCall(s, off, moves, h);
    raised, seen := s'.harts[h].raisedAt[t], s'.harts[h].seenAt[t];
  }

  // ---- Delivery ----

  // The only change to pending events: the event of a call joins those of its target, and a
  // hart takes all of its own.
  lemma PendingStep(s: State, off: set<nat>, h: nat, a: Step, k: nat)
    requires CanStep(s, off, h, a) && k < |s.harts|
    ensures |Do(s, off, h, a).harts| == |s.harts|
    ensures var (x, y, y') := (s.harts[h], s.harts[k], Do(s, off, h, a).harts[k]);
            if a.Run? && x.pc == Send(k) && k in x.mask && k !in off then y'.pending == y.pending + {x.event}
            else if a.Run? && h == k && x.pc.Taking? then y'.pending == {}
            else y'.pending == y.pending
  {
  }

  // The hart's ipi is set, or it is in the firmware and will set it again or take its
  // events.
  predicate Noticed(x: Hart) {
    x.ipi || Holding(x.pc) || x.pc.Taking?
  }

  // Once noticed, an event stays noticed until it is taken.
  lemma NoticedStep(s: State, off: set<nat>, h: nat, a: Step, t: nat)
    requires CanStep(s, off, h, a) && t < |s.harts|
    ensures |Do(s, off, h, a).harts| == |s.harts|
    ensures var (y, y') := (s.harts[t], Do(s, off, h, a).harts[t]);
            && (Noticed(y) && !(h == t && a.Run? && y.pc.Taking?) ==> Noticed(y'))
            && (a.Run? && s.harts[h].pc == Raise(t) ==> y'.ipi)
  {
  }

  // The state before move k of a run, and what the move does.
  lemma StepAt(s: State, off: set<nat>, moves: seq<Move>, k: nat)
    requires Valid(s, off, moves) && k < |moves|
    ensures Valid(s, off, moves[..k]) && Valid(s, off, moves[..k + 1])
    ensures var p := After(s, off, moves[..k]);
            CanStep(p, off, moves[k].hart, moves[k].step)
            && After(s, off, moves[..k + 1]) == Do(p, off, moves[k].hart, moves[k].step)
  {
    hide Valid, After;
    assert moves == moves[..k + 1] + moves[k + 1..];
    Prefix(s, off, moves, k + 1);
    LastMove(s, off, moves[..k + 1]);
    assert moves[..k + 1][..k] == moves[..k];
  }

  lemma {:induction false} Prefix(s: State, off: set<nat>, moves: seq<Move>, k: nat)
    requires Valid(s, off, moves) && k <= |moves|
    ensures Valid(s, off, moves[..k])
    decreases |moves| - k
  {
    if k < |moves| {
      Prefix(s, off, moves, k + 1);
      LastMove(s, off, moves[..k + 1]);
      assert moves[..k + 1][..k] == moves[..k];
    } else {
      assert moves[..k] == moves;
    }
  }

  // Move k of the run is h adding `event` to what is pending for t, and nothing else.
  ghost predicate Sends(s: State, off: set<nat>, moves: seq<Move>, k: nat, h: nat, t: nat, event: Event) {
    && k < |moves| && moves[k] == Move(h, Run) && Valid(s, off, moves[..k]) && Valid(s, off, moves[..k + 1])
    && var (p, q) := (After(s, off, moves[..k]), After(s, off, moves[..k + 1]));
       && h < |p.harts| && t < |p.harts| == |q.harts| && p.harts[h].pc == Send(t) && t in p.harts[h].mask
       && q.harts[t].pending == p.harts[t].pending + {event}
       && forall u :: 0 <= u < |p.harts| && u != t ==> q.harts[u].pending == p.harts[u].pending
  }

  // Move k of the run is t taking its events, `event` among them.
  ghost predicate Takes(s: State, off: set<nat>, moves: seq<Move>, k: nat, t: nat, event: Event) {
    && k < |moves| && moves[k] == Move(t, Run) && Valid(s, off, moves[..k])
    && var p := After(s, off, moves[..k]);
       t < |p.harts| && p.harts[t].pc.Taking? && event in p.harts[t].pending
  }

  // A hart between the two writes of send_ipi made the first in its last step.
  lemma {:induction false} RaiseAfterSend(s: State, off: set<nat>, moves: seq<Move>, h: nat, t: nat) returns (k: nat)
    requires Initial(s) && Valid(s, off, moves) && h < |s.harts| == |After(s, off, moves).harts|
    requires After(s, off, moves).harts[h].pc == Raise(t) && t < |s.harts|
    ensures Sends(s, off, moves, k, h, t, After(s, off, moves).harts[h].event)
    ensures forall j :: k < j < |moves| ==> moves[j].hart != h
    decreases |moves|
  {
    hide Valid, Ok, Sends;
    InitialOk(s, off);
    if moves == [] {
      NoMoves(s, off, moves);
    } else {
      var before, m := moves[..|moves| - 1], moves[|moves| - 1];
      LastMove(s, off, moves);
      RunOk(s, off, before);
      RunOk(s, off, moves);
      var p := After(s, off, before);
      SameCall(p, off, m.hart, m.step, h);
      OkLocal(p, off, m.hart);
      if m.hart == h {
        k := |before|;
        SentNow(s, off, moves, h, t);
      } else {
        OthersStep(p, off, m.hart, m.step, h);
        k := RaiseAfterSend(s, off, before, h, t);
        SentBefore(s, off, moves, k, h, t, p.harts[h].event);
      }
    }
  }

  lemma OkLocal(s: State, off: set<nat>, h: nat)
    requires Ok(s, off) && h < |s.harts|
    ensures Local(s, off, h)
  {
  }

  // A step that leaves the hart between the two writes.
  lemma StepSends(s: State, off: set<nat>, h: nat, a: Step, t: nat)
    requires CanStep(s, off, h, a) && t < |s.harts| == |Do(s, off, h, a).harts|
    requires Do(s, off, h, a).harts[h].pc == Raise(t)
    ensures var (x, s') := (s.harts[h], Do(s, off, h, a));
            && a == Run && x.pc == Send(t) && t in x.mask && s'.harts[h].event == x.event
            && s'.harts[t].pending == s.harts[t].pending + {x.event}
            && forall u :: 0 <= u < |s.harts| && u != t ==> s'.harts[u].pending == s.harts[u].pending
  {
    forall u | 0 <= u < |s.harts|
      ensures Do(s, off, h, a).harts[u].pending
           == if u == t then s.harts[u].pending + {s.harts[h].event} else s.harts[u].pending
    {
      PendingStep(s, off, h, a, u);
    }
  }

  lemma SentNow(s: State, off: set<nat>, moves: seq<Move>, h: nat, t: nat)
    requires moves != [] && Valid(s, off, moves) && moves[|moves| - 1].hart == h
    requires h < |After(s, off, moves).harts| && t < |After(s, off, moves).harts|
    requires After(s, off, moves).harts[h].pc == Raise(t)
    ensures Sends(s, off, moves, |moves| - 1, h, t, After(s, off, moves).harts[h].event)
  {
    hide Do, CanStep, Valid, After;
    var k := |moves| - 1;
    LastMove(s, off, moves);
    assert moves[..k + 1] == moves;
    var p := After(s, off, moves[..k]);
    StepTime(p, off, h, moves[k].step);
    StepSends(p, off, h, moves[k].step, t);
  }

  lemma SentBefore(s: State, off: set<nat>, moves: seq<Move>, k: nat, h: nat, t: nat, event: Event)
    requires moves != [] && Sends(s, off, moves[..|moves| - 1], k, h, t, event)
    ensures Sends(s, off, moves, k, h, t, event)
  {
    var before := moves[..|moves| - 1];
    assert before[..k] == moves[..k] && before[..k + 1] == moves[..k + 1];
  }

  // From when it is sent, an event is pending until it is taken; from when the ipi is set,
  // it is also noticed.
  lemma {:induction false} Kept(s: State, off: set<nat>, moves: seq<Move>, h: nat, t: nat, event: Event, added: nat,
                                raised: nat, n: nat)
    requires Valid(s, off, moves) && added < n <= |moves| && raised < |moves|
    requires Sends(s, off, moves, added, h, t, event) && SetBy(s, off, moves, raised, h, t)
    ensures Valid(s, off, moves[..n]) && t < |After(s, off, moves[..n]).harts|
    ensures var y := After(s, off, moves[..n]).harts[t];
            (exists k :: added < k < n && Takes(s, off, moves, k, t, event)) ||
            (event in y.pending && (raised < n && added < raised ==> Noticed(y)))
    decreases n
  {
    hide Valid, Takes;
    StepAt(s, off, moves, n - 1);
    var (p, m) := (After(s, off, moves[..n - 1]), moves[n - 1]);
    if n == added + 1 {
    } else {
      Kept(s, off, moves, h, t, event, added, raised, n - 1);
      PendingStep(p, off, m.hart, m.step, t);
      NoticedStep(p, off, m.hart, m.step, t);
      if exists k :: added < k < n - 1 && Takes(s, off, moves, k, t, event) {
        var k :| added < k < n - 1 && Takes(s, off, moves, k, t, event);
        assert added < k < n && Takes(s, off, moves, k, t, event);
      } else if m.hart == t && m.step.Run? && p.harts[t].pc.Taking? {
        TakesHere(s, off, moves, n - 1, t, event);
      }
    }
  }

  lemma TakesHere(s: State, off: set<nat>, moves: seq<Move>, k: nat, t: nat, event: Event)
    requires k < |moves| && moves[k] == Move(t, Run) && Valid(s, off, moves[..k])
    requires t < |After(s, off, moves[..k]).harts| && After(s, off, moves[..k]).harts[t].pc.Taking?
    requires event in After(s, off, moves[..k]).harts[t].pending
    ensures Takes(s, off, moves, k, t, event)
  {
  }

  // When a call has returned, its event was added to what was pending for each enabled
  // target during the call. Since then the target has taken it, or it is pending still and
  // the target's ipi is set or the target is in the firmware, about to take it or to set
  // its ipi again.
  lemma Delivered(s: State, off: set<nat>, moves: seq<Move>, h: nat, t: nat) returns (c: nat, added: nat)
    requires Fresh(s) && Valid(s, off, moves) && h < |s.harts| && |After(s, off, moves).harts| == |s.harts|
    requires var x := After(s, off, moves).harts[h]; x.pc.Idle? && t in x.mask && t !in off
    ensures t < |s.harts|
    ensures var (x, y) := (After(s, off, moves).harts[h], After(s, off, moves).harts[t]);
            && CallOf(moves, c, h, x.mask, x.event) && c < added && Sends(s, off, moves, added, h, t, x.event)
            && ((exists k :: added < k < |moves| && Takes(s, off, moves, k, t, x.event)) ||
                (x.event in y.pending && Noticed(y)))
  {
    hide SetBy, Valid, Sends, Takes, Noticed;
    InitialOk(s, off);
    RunOk(s, off, moves);
    Recorded(s, off, moves, h, t);
    var s' := After(s, off, moves);
    var x := s'.harts[h];
    assert Local(s', off, h);
    c := LastCall(s, off, moves, h);
    var raised := x.raisedAt[t];
    added := SentInCall(s, off, moves, h, t, c, raised, x.mask, x.event);
    Kept(s, off, moves, h, t, x.event, added, raised, |moves|);
    assert moves[..|moves|] == moves;
  }

  lemma SentInCall(s: State, off: set<nat>, moves: seq<Move>, h: nat, t: nat, c: nat, raised: nat, mask: set<nat>,
                   event: Event) returns (added: nat)
    requires Fresh(s) && Valid(s, off, moves) && h < |s.harts| && t < |s.harts|
    requires CallOf(moves, c, h, mask, event) && SetBy(s, off, moves, raised, h, t) && c < raised
    ensures c < added < raised && Sends(s, off, moves, added, h, t, event)
  {
    hide Valid, Sends, Ok;
    InitialOk(s, off);
    var before := moves[..raised];
    RunOk(s, off, before);
    added := RaiseAfterSend(s, off, before, h, t);
    SendsIn(s, off, before, added, h, t, After(s, off, before).harts[h].event);
    assert before[c] == moves[c] && before[added] == moves[added];
    RaiseInMask(s, off, before, h, t);
    var c' := LastCall(s, off, before, h);
    assert before[c'] == moves[c'];
    SendsLater(s, off, moves, raised, added, h, t, event);
  }

  lemma SendsIn(s: State, off: set<nat>, moves: seq<Move>, k: nat, h: nat, t: nat, event: Event)
    requires Sends(s, off, moves, k, h, t, event)
    ensures k < |moves| && moves[k] == Move(h, Run)
  {
  }

  lemma SendsLater(s: State, off: set<nat>, moves: seq<Move>, n: nat, k: nat, h: nat, t: nat, event: Event)
    requires n <= |moves| && Sends(s, off, moves[..n], k, h, t, event)
    ensures Sends(s, off, moves, k, h, t, event)
  {
    assert moves[..n][..k] == moves[..k] && moves[..n][..k + 1] == moves[..k + 1];
  }

  lemma RaiseInMask(s: State, off: set<nat>, moves: seq<Move>, h: nat, t: nat)
    requires Initial(s) && Valid(s, off, moves) && h < |s.harts| == |After(s, off, moves).harts|
    requires After(s, off, moves).harts[h].pc == Raise(t)
    ensures After(s, off, moves).harts[h].mask != {}
  {
    hide Valid, After;
    InitialOk(s, off);
    RunOk(s, off, moves);
    assert Local(After(s, off, moves), off, h);
  }

  // Two harts: hart 0 calls for hart 1, which is interrupted.
  function Caller(pc: Pc, raisedAt: map<nat, nat>, seenAt: map<nat, nat>): Hart {
    Hart(false, {}, pc, {1}, FenceI, raisedAt, seenAt)
  }

  function Target(ipi: bool, pending: set<Event>, pc: Pc): Hart {
    Hart(ipi, pending, pc, {}, Soft, map[], map[])
  }

  lemma EarlyCall()
    ensures var after := State([Caller(Poll(0, false), map[1 := 3], map[]), Target(true, {FenceI}, Idle)], 5);
            var run := Move(0, Run);
            var moves := [Move(0, Call({1}, FenceI)), run, run, run, run];
            var s := State([Target(false, {}, Idle), Target(false, {}, Idle)], 0);
            Valid(s, {}, moves) && After(s, {}, moves) == after
  {
    var (call, run) := (Move(0, Call({1}, FenceI)), Move(0, Run));
    var moves := [call, run, run, run, run];
    assert More({1}, 0) && More({1}, 1) by { assert 1 in {1} && 0 <= 1; }
    assert !More({1}, 2) && {} + {FenceI} == {FenceI};
    hide More;
    var off := Target(false, {}, Idle);
    var a := Caller(Send(0), map[], map[]);
    var (s1, s2) := (State([a, off], 1), State([a.(pc := Send(1)), off], 2));
    var s3 := State([a.(pc := Raise(1)), Target(false, {FenceI}, Idle)], 3);
    var c := Caller(Send(2), map[1 := 3], map[]);
    var b := Target(true, {FenceI}, Idle);
    Next(State([off, off], 0), {}, call, s1, moves[1..]);
    Next(s1, {}, run, s2, moves[2..]);
    Next(s2, {}, run, s3, moves[3..]);
    Next(s3, {}, run, State([c, b], 4), moves[4..]);
    Next(State([c, b], 4), {}, run, State([c.(pc := Poll(0, false)), b], 5), []);
  }

  lemma EarlyReturn()
    ensures var before := State([Caller(Poll(0, false), map[1 := 3], map[]), Target(true, {FenceI}, Idle)], 5);
            var run := Move(0, Run);
            var moves := [Move(1, Interrupt), run, run, run];
            && Valid(before, {}, moves)
            && After(before, {}, moves)
               == State([Caller(Idle, map[1 := 3], map[1 := 7]), Target(false, {FenceI}, Taking)], 9)
  {
    var (run, take) := (Move(0, Run), Move(1, Interrupt));
    var moves := [take, run, run, run];
    assert More({1}, 0) && More({1}, 1) by { assert 1 in {1} && 0 <= 1; }
    assert !More({1}, 2);
    hide More;
    var c := Caller(Poll(0, false), map[1 := 3], map[]);
    var (b, t) := (Target(true, {FenceI}, Idle), Target(false, {FenceI}, Taking));
    var (s6, s7) := (State([c, t], 6), State([c.(pc := Poll(1, false)), t], 7));
    var s8 := State([c.(pc := Poll(2, false), seenAt := map[1 := 7]), t], 8);
    Next(State([c, b], 5), {}, take, s6, moves[1..]);
    Next(s6, {}, run, s7, moves[2..]);
    Next(s7, {}, run, s8, moves[3..]);
    Next(s8, {}, run, State([Caller(Idle, map[1 := 3], map[1 := 7]), t], 9), []);
  }

  // The wait of send_ipi_many is for ipi words, not for the events: hart 1 has cleared its
  // ipi and not yet looked at its events when the call of hart 0 returns.
  lemma ReturnsEarly() returns (s: State, moves: seq<Move>)
    ensures Fresh(s) && Valid(s, {}, moves) && |s.harts| == |After(s, {}, moves).harts| == 2
    ensures var (x, y) := (After(s, {}, moves).harts[0], After(s, {}, moves).harts[1]);
            && x.pc.Idle? && x.mask == {1} && x.event == FenceI && y.pending == {FenceI} && !y.ipi
            && forall k :: 0 <= k < |moves| ==> !Takes(s, {}, moves, k, 1, FenceI)
  {
    var run := Move(0, Run);
    var first := [Move(0, Call({1}, FenceI)), run, run, run, run];
    s := State([Target(false, {}, Idle), Target(false, {}, Idle)], 0);
    moves := first + [Move(1, Interrupt), run, run, run];
    EarlyCall();
    EarlyReturn();
    Longer(s, {}, first, [Move(1, Interrupt), run, run, run]);
    hide Valid, After;
  }

  // One move at the head of a run.
  lemma Next(s: State, off: set<nat>, m: Move, s': State, rest: seq<Move>)
    requires CanStep(s, off, m.hart, m.step) && Do(s, off, m.hart, m.step) == s'
    ensures Valid(s, off, [m] + rest) <==> Valid(s', off, rest)
    ensures Valid(s', off, rest) ==> After(s, off, [m] + rest) == After(s', off, rest)
  {
    assert ([m] + rest)[1..] == rest;
  }

  // ---- No deadlock ----

  // How far a hart is from returning.
  function Rank(pc: Pc, n: nat): int {
    match pc
    case Idle => 0
    case Taking => 1
    case Restore => 1
    case Poll(i, _) => 2 + 2 * (n - i)
    case Swap(i, _) => 3 + 2 * (n - i)
    case Send(i) => 4 + 2 * n + 2 * (n - i)
    case Raise(i) => 3 + 2 * n + 2 * (n - i)
  }

  // The hart is about to read an ipi that is set.
  predicate SeesSet(s: State, h: nat)
    requires h < |s.harts|
  {
    var x := s.harts[h];
    x.pc.Poll? && x.pc.i in x.mask && x.pc.i < |s.harts| && s.harts[x.pc.i].ipi
  }

  lemma Closer(s: State, off: set<nat>, h: nat)
    requires CanStep(s, off, h, Run) && Local(s, off, h)
    ensures var s' := Do(s, off, h, Run);
            && |s'.harts| == |s.harts| && Rank(s.harts[h].pc, |s.harts|) > 0
            && (!SeesSet(s, h) ==> 0 <= Rank(s'.harts[h].pc, |s.harts|) < Rank(s.harts[h].pc, |s.harts|))
  {
    var x := s.harts[h];
    if !x.pc.Restore? && !x.pc.Taking? {
      NoMore(x.mask, |s.harts|, x.pc.i);
    }
    LocalStep(s, off, h, Run);
  }

  // The other harts stand where they stood.
  predicate OnlyMoved(s: State, s': State, h: nat) {
    |s.harts| == |s'.harts| &&
    forall k :: 0 <= k < |s.harts| && k != h ==> s'.harts[k].pc == s.harts[k].pc && s'.harts[k].mask == s.harts[k].mask
  }

  lemma OnlyMovedStep(s: State, off: set<nat>, h: nat, a: Step)
    requires CanStep(s, off, h, a) && Local(s, off, h)
    ensures OnlyMoved(s, Do(s, off, h, a), h)
  {
    StepTime(s, off, h, a);
    forall k | 0 <= k < |s.harts| && k != h
      ensures var (x, x') := (s.harts[k], Do(s, off, h, a).harts[k]); x'.pc == x.pc && x'.mask == x.mask
    {
      OthersStep(s, off, h, a, k);
    }
  }

  lemma Runnable(s: State, off: set<nat>, h: nat)
    requires Ok(s, off) && h < |s.harts| && !s.harts[h].pc.Idle?
    ensures h !in off && CanStep(s, off, h, Run) && Local(s, off, h)
  {
    assert Local(s, off, h) && (h in off ==> Off(s.harts[h]));
  }

  lemma Prepend(s: State, off: set<nat>, h: nat, a: Step, rest: seq<Move>) returns (moves: seq<Move>)
    requires CanStep(s, off, h, a) && Valid(Do(s, off, h, a), off, rest)
    ensures Valid(s, off, moves) && After(s, off, moves) == After(Do(s, off, h, a), off, rest)
  {
    moves := [Move(h, a)] + rest;
    assert moves[1..] == rest;
  }

  // By its own steps alone an enabled hart comes to clear its ipi.
  lemma CanClear(s: State, off: set<nat>, t: nat) returns (moves: seq<Move>)
    requires Ok(s, off) && t < |s.harts| && t !in off
    ensures Valid(s, off, moves) && Ok(After(s, off, moves), off) && OnlyMoved(s, After(s, off, moves), t)
    ensures !After(s, off, moves).harts[t].ipi
    decreases Rank(s.harts[t].pc, |s.harts|)
  {
    hide Ok, Local, Valid, After, Rank;
    var x := s.harts[t];
    if !x.ipi {
      moves := [];
      NoMoves(s, off, moves);
    } else if x.pc.Idle? {
      moves := [Move(t, Interrupt)];
      OneMove(s, off, t, Interrupt);
      StepOk(s, off, t, Interrupt);
      LocalOf(s, off, t);
      OnlyMovedStep(s, off, t, Interrupt);
    } else {
      Runnable(s, off, t);
      var s1 := Do(s, off, t, Run);
      StepOk(s, off, t, Run);
      OnlyMovedStep(s, off, t, Run);
      if SeesSet(s, t) {
        ToSwap(s, off, t);
        Runnable(s1, off, t);
        OneMove(s1, off, t, Run);
        StepOk(s1, off, t, Run);
        OnlyMovedStep(s1, off, t, Run);
        moves := Prepend(s, off, t, Run, [Move(t, Run)]);
      } else {
        Closer(s, off, t);
        var rest := CanClear(s1, off, t);
        moves := Prepend(s, off, t, Run, rest);
      }
    }
  }

  lemma LocalOf(s: State, off: set<nat>, h: nat)
    requires Ok(s, off) && h < |s.harts|
    ensures Local(s, off, h) && Guarded(s, h) && (h in off ==> Off(s.harts[h]))
  {
  }

  lemma ToSwap(s: State, off: set<nat>, h: nat)
    requires CanStep(s, off, h, Run) && SeesSet(s, h)
    ensures var s' := Do(s, off, h, Run);
            |s'.harts| == |s.harts| && s'.harts[h].pc == Swap(s.harts[h].pc.i, s.harts[h].pc.incoming)
  {
    assert s.harts[h].pc.i in s.harts[h].mask;
  }

  // From every reachable state a call can return: harts that wait for each other consume
  // their own interrupts.
  lemma CanReturn(s: State, off: set<nat>, h: nat) returns (moves: seq<Move>)
    requires Ok(s, off) && h < |s.harts|
    ensures Valid(s, off, moves) && Ok(After(s, off, moves), off) && |After(s, off, moves).harts| == |s.harts|
    ensures After(s, off, moves).harts[h].pc.Idle?
    decreases Rank(s.harts[h].pc, |s.harts|)
  {
    hide Ok, Local, Valid, After, Rank;
    if s.harts[h].pc.Idle? {
      moves := [];
      NoMoves(s, off, moves);
    } else {
      Runnable(s, off, h);
      var first, s1 := [], s;
      NoMoves(s, off, []);
      if SeesSet(s, h) {
        first := CanPass(s, off, h);
        s1 := After(s, off, first);
        PollRank(s.harts[h].pc, s1.harts[h].pc, |s.harts|);
      }
      Runnable(s1, off, h);
      Closer(s1, off, h);
      StepOk(s1, off, h, Run);
      var rest := CanReturn(Do(s1, off, h, Run), off, h);
      var second := Prepend(s1, off, h, Run, rest);
      moves := first + second;
      Longer(s, off, first, second);
    }
  }

  lemma PollRank(pc: Pc, pc': Pc, n: nat)
    requires pc.Poll? && pc'.Poll? && pc.i == pc'.i
    ensures Rank(pc, n) == Rank(pc', n)
  {
  }

  // The ipi a hart waits for can be cleared, the hart staying where it is.
  lemma CanPass(s: State, off: set<nat>, h: nat) returns (moves: seq<Move>)
    requires Ok(s, off) && h < |s.harts| && SeesSet(s, h)
    ensures Valid(s, off, moves) && Ok(After(s, off, moves), off) && |After(s, off, moves).harts| == |s.harts|
    ensures var s' := After(s, off, moves);
            !SeesSet(s', h) && s'.harts[h].pc.Poll? && s'.harts[h].pc.i == s.harts[h].pc.i
  {
    hide Ok, Local, Valid, After;
    var i := s.harts[h].pc.i;
    LocalOf(s, off, i);
    if i == h {
      Runnable(s, off, h);
      ToSwap(s, off, h);
      StepOk(s, off, h, Run);
      var s1 := Do(s, off, h, Run);
      Runnable(s1, off, h);
      OneMove(s1, off, h, Run);
      StepOk(s1, off, h, Run);
      moves := Prepend(s, off, h, Run, [Move(h, Run)]);
    } else {
      moves := CanClear(s, off, i);
    }
  }

  // So a pending event is never stranded: from every reachable state the hart can come to
  // take all that is pending.
  lemma CanTake(s: State, off: set<nat>, h: nat) returns (moves: seq<Move>)
    requires Ok(s, off) && h < |s.harts|
    ensures Valid(s, off, moves) && |After(s, off, moves).harts| == |s.harts|
    ensures After(s, off, moves).harts[h].pending == {}
  {
    hide Ok, Local, Valid, After;
    var first := CanReturn(s, off, h);
    var s1 := After(s, off, first);
    var second := [];
    NoMoves(s1, off, []);
    if s1.harts[h].pending != {} {
      LocalOf(s1, off, h);
      if s1.harts[h].ipi {
        second := Taken(s1, off, h);
      } else {
        var k :| 0 <= k < |s1.harts| && s1.harts[k].pc == Raise(h);
        Runnable(s1, off, k);
        StepOk(s1, off, k, Run);
        var rest := Taken(Do(s1, off, k, Run), off, h);
        second := Prepend(s1, off, k, Run, rest);
      }
    }
    moves := first + second;
    Longer(s, off, first, second);
  }

  lemma Taken(s: State, off: set<nat>, h: nat) returns (moves: seq<Move>)
    requires Ok(s, off) && h < |s.harts| && h !in off && s.harts[h].pc.Idle? && s.harts[h].ipi
    ensures Valid(s, off, moves) && |After(s, off, moves).harts| == |s.harts|
    ensures After(s, off, moves).harts[h].pending == {}
  {
    hide Ok, Local, Valid, After;
    StepOk(s, off, h, Interrupt);
    var s1 := Do(s, off, h, Interrupt);
    Runnable(s1, off, h);
    OneMove(s1, off, h, Run);
    moves := Prepend(s, off, h, Interrupt, [Move(h, Run)]);
  }
}
