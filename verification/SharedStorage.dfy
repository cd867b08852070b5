/**
 * Reference-counted shared storage as a protocol: handles used from any number of threads, whose
 * atomic accesses to the count interleave arbitrarily.
 */
module SharedStorage {

  datatype Backing = Static | Vec | Foreign

  /**
   * Where one handle stands. `Live` handles may be borrowed by `readers` at once; the other phases
   * own the handle or borrow it exclusively.
   */
  datatype Phase =
    | Live(readers: nat)
    | Borrowing          // in `try_as_mut_slice`, before the exclusivity load
    | Mutable            // a mutable slice of the data is out
    | Taking             // in `try_into_vec`, before the exclusivity load
    | Dropping           // in `drop`, before the decrement
    | Releasing          // in `drop_slow`
    | Gone
  {
    /** The handle has not given up its count yet. */
    predicate Counted() {
      !Releasing? && !Gone?
    }
  }

  /** `released` and `handedOver` count how often the data was freed and given away as a `Vec`. */
  datatype State = State(backing: Backing, count: int, handles: seq<Phase>, released: nat, handedOver: nat)

  /** `from_static`, `from_vec`, `from_internal_arrow_array`. */
  function Init(backing: Backing): State {
    State(backing, if backing.Static? then 2 else 1, [Live(0)], 0, 0)
  }

  datatype Step =
    | Clone(h: nat)
    | BeginRead(h: nat)
    | EndRead(h: nat)
    | BeginBorrow(h: nat)
    | LoadBorrow(h: nat)
    | EndBorrow(h: nat)
    | BeginTake(h: nat)
    | LoadTake(h: nat)
    | BeginDrop(h: nat)
    | Decrement(h: nat)
    | Free(h: nat)

  /** What the borrow rules let happen next: exclusive access needs a handle nobody reads through. */
  predicate Enabled(s: State, step: Step) {
    step.h < |s.handles| &&
    var p := s.handles[step.h];
    match step
    case Clone(_) => p.Live?
    case BeginRead(_) => p.Live?
    case EndRead(_) => p.Live? && p.readers > 0
    case BeginBorrow(_) => p == Live(0)
    case LoadBorrow(_) => p.Borrowing?
    case EndBorrow(_) => p.Mutable?
    case BeginTake(_) => p == Live(0)
    case LoadTake(_) => p.Taking?
    case BeginDrop(_) => p == Live(0)
    case Decrement(_) => p.Dropping?
    case Free(_) => p.Releasing?
  }

  function SetPhase(s: State, h: nat, p: Phase): State
    requires h < |s.handles|
  {
    s.(handles := s.handles[h := p])
  }

  /** One atomic step of one handle. */
  function Next(s: State, step: Step): State
    requires Enabled(s, step)
  {
    var h := step.h;
    match step
    case Clone(_) =>
      s.(count := if s.backing.Static? then s.count else s.count + 1, handles := s.handles + [Live(0)])
    case BeginRead(_) => SetPhase(s, h, Live(s.handles[h].readers + 1))
    case EndRead(_) => SetPhase(s, h, Live(s.handles[h].readers - 1))
    case BeginBorrow(_) => SetPhase(s, h, Borrowing)
    case LoadBorrow(_) => SetPhase(s, h, if s.count == 1 then Mutable else Live(0))
    case EndBorrow(_) => SetPhase(s, h, Live(0))
    case BeginTake(_) => SetPhase(s, h, Taking)
    case LoadTake(_) =>
      if !s.backing.Vec? || s.count != 1 then SetPhase(s, h, Live(0))
      else SetPhase(s, h, Gone).(handedOver := s.handedOver + 1)
    case BeginDrop(_) => SetPhase(s, h, Dropping)
    case Decrement(_) =>
      if s.backing.Static? then SetPhase(s, h, Gone)
      else SetPhase(s, h, if s.count == 1 then Releasing else Gone).(count := s.count - 1)
    case Free(_) => SetPhase(s, h, Gone).(released := s.released + 1)
  }

  // Tallies.

  datatype Kind = CountedKind | MutableKind | ReleasingKind

  predicate Is(p: Phase, kind: Kind) {
    match kind
    case CountedKind => p.Counted()
    case MutableKind => p.Mutable?
    case ReleasingKind => p.Releasing?
  }

  function Bit(p: Phase, kind: Kind): nat {
    if Is(p, kind) then 1 else 0
  }

  /** How many handles are of a kind. */
  function Tally(hs: seq<Phase>, kind: Kind): nat {
    if hs == [] then 0 else Tally(hs[..|hs| - 1], kind) + Bit(hs[|hs| - 1], kind)
  }

  lemma TallySnoc(hs: seq<Phase>, p: Phase, kind: Kind)
    ensures Tally(hs + [p], kind) == Tally(hs, kind) + Bit(p, kind)
  {
    assert (hs + [p])[..|hs|] == hs;
  }

  lemma {:induction false} TallySet(hs: seq<Phase>, h: nat, p: Phase, kind: Kind)
    requires h < |hs|
    ensures Tally(hs[h := p], kind) == Tally(hs, kind) - Bit(hs[h], kind) + Bit(p, kind)
  {
    var last := |hs| - 1;
    if h == last {
      assert hs[h := p][..last] == hs[..last];
    } else {
      assert hs[h := p][..last] == hs[..last][h := p];
      TallySet(hs[..last], h, p, kind);
    }
  }

  /** A handle of a kind is seen by its tally. */
  lemma {:induction false} TallyPositive(hs: seq<Phase>, h: nat, kind: Kind)
    requires h < |hs| && Is(hs[h], kind)
    ensures Tally(hs, kind) >= 1
  {
    if h < |hs| - 1 {
      TallyPositive(hs[..|hs| - 1], h, kind);
    }
  }

  /** Two different handles of a kind make a tally of at least two. */
  lemma TallyPair(hs: seq<Phase>, h: nat, g: nat, kind: Kind)
    requires h < |hs| && g < |hs| && h != g && Is(hs[h], kind) && Is(hs[g], kind)
    ensures Tally(hs, kind) >= 2
  {
    TallySet(hs, h, Gone, kind);
    TallyPositive(hs[h := Gone], g, kind);
  }

  /** A positive tally has a witness. */
  lemma {:induction false} TallyWitness(hs: seq<Phase>, kind: Kind) returns (h: nat)
    requires Tally(hs, kind) >= 1
    ensures h < |hs| && Is(hs[h], kind)
  {
    if Is(hs[|hs| - 1], kind) {
      h := |hs| - 1;
    } else {
      h := TallyWitness(hs[..|hs| - 1], kind);
    }
  }

  // The invariant.

  ghost predicate Inv(s: State) {
    var counted, mutables, releasing :=
      Tally(s.handles, CountedKind), Tally(s.handles, MutableKind), Tally(s.handles, ReleasingKind);
    if s.backing.Static? then
      s.count == 2 && s.released == 0 && s.handedOver == 0 && mutables == 0 && releasing == 0
    else
      && (s.handedOver == 0 ==> s.count == counted)
      && s.released + s.handedOver + releasing == (if counted == 0 then 1 else 0)
      && (mutables > 0 ==> counted == 1)
      && (s.handedOver > 0 ==> s.backing.Vec?)
  }

  lemma InitInv(backing: Backing)
    ensures Inv(Init(backing))
  {
    var hs := Init(backing).handles;
    assert hs[..0] == [];
    assert Tally(hs, CountedKind) == 1 && Tally(hs, MutableKind) == 0 && Tally(hs, ReleasingKind) == 0;
  }

  /** While a mutable slice is out, no other handle can take a step. */
  lemma MutableBlocksOthers(s: State, step: Step)
    requires Inv(s) && Enabled(s, step) && Tally(s.handles, MutableKind) > 0
    ensures step.EndBorrow?
  {
    var m := TallyWitness(s.handles, MutableKind);
    var p := s.handles[step.h];
    if p.Counted() {
      if step.h != m {
        TallyPair(s.handles, step.h, m, CountedKind);
      }
    } else {
      TallyPositive(s.handles, step.h, ReleasingKind);
    }
  }

  lemma NextTally(s: State, step: Step, kind: Kind)
    requires Enabled(s, step)
    ensures var t := Next(s, step);
            var lost := if step.Clone? then 0 else Bit(s.handles[step.h], kind);
            var won := if step.Clone? then Bit(Live(0), kind) else Bit(t.handles[step.h], kind);
            Tally(t.handles, kind) == Tally(s.handles, kind) - lost + won
  {
    if step.Clone? {
      TallySnoc(s.handles, Live(0), kind);
    } else {
      TallySet(s.handles, step.h, Next(s, step).handles[step.h], kind);
    }
  }

  lemma StaticStep(s: State, step: Step)
    requires Inv(s) && Enabled(s, step) && s.backing.Static?
    ensures Inv(Next(s, step))
  {
    hide Tally;
    if s.handles[step.h].Mutable? {
      TallyPositive(s.handles, step.h, MutableKind);
    } else if s.handles[step.h].Releasing? {
      TallyPositive(s.handles, step.h, ReleasingKind);
    }
    NextTally(s, step, MutableKind);
    NextTally(s, step, ReleasingKind);
  }

  lemma OwnedStep(s: State, step: Step)
    requires Inv(s) && Enabled(s, step) && !s.backing.Static?
    ensures Inv(Next(s, step))
  {
    hide Tally;
    if Tally(s.handles, MutableKind) > 0 {
      MutableBlocksOthers(s, step);
    }
    TallyPositive(s.handles, step.h, if step.Free? then ReleasingKind else CountedKind);
    NextTally(s, step, CountedKind);
    NextTally(s, step, MutableKind);
    NextTally(s, step, ReleasingKind);
  }

  /** Every step keeps the invariant. */
  lemma StepInv(s: State, step: Step)
    requires Inv(s) && Enabled(s, step)
    ensures Inv(Next(s, step))
  {
    if s.backing.Static? {
      StaticStep(s, step);
    } else {
      OwnedStep(s, step);
    }
  }

  // Runs.

  ghost predicate IsRun(s: State, steps: seq<Step>, t: State)
    decreases |steps|
  {
    if steps == [] then s == t else Enabled(s, steps[0]) && IsRun(Next(s, steps[0]), steps[1..], t)
  }

  lemma {:induction false} RunInv(s: State, steps: seq<Step>, t: State)
    requires Inv(s) && IsRun(s, steps, t)
    ensures Inv(t) && t.backing == s.backing
    decreases |steps|
  {
    if steps != [] {
      StepInv(s, steps[0]);
      RunInv(Next(s, steps[0]), steps[1..], t);
    }
  }

  ghost predicate Reachable(backing: Backing, t: State) {
    exists steps :: IsRun(Init(backing), steps, t)
  }

  lemma ReachableInv(backing: Backing, t: State)
    requires Reachable(backing, t)
    ensures Inv(t) && t.backing == backing
  {
    var steps :| IsRun(Init(backing), steps, t);
    InitInv(backing);
    RunInv(Init(backing), steps, t);
  }

  /** The count is the number of handles that have not decremented it, until the data is taken. */
  lemma CountIsHandles(backing: Backing, t: State)
    requires Reachable(backing, t) && !backing.Static? && t.handedOver == 0
    ensures t.count == Tally(t.handles, CountedKind)
  {
    ReachableInv(backing, t);
  }

  /** The data goes away at most once, and never while a handle could still read it. */
  lemma NeverFreedInUse(backing: Backing, t: State, h: nat)
    requires Reachable(backing, t) && h < |t.handles| && t.handles[h].Counted()
    ensures t.released == 0 && t.handedOver == 0
  {
    ReachableInv(backing, t);
    TallyPositive(t.handles, h, CountedKind);
  }

  /** Once every handle is gone, owned data was released or handed over exactly once. */
  lemma ReleasedExactlyOnce(backing: Backing, t: State)
    requires Reachable(backing, t) && !backing.Static?
    requires forall h :: 0 <= h < |t.handles| ==> t.handles[h].Gone?
    ensures t.released + t.handedOver == 1
  {
    ReachableInv(backing, t);
    if Tally(t.handles, CountedKind) >= 1 {
      var h := TallyWitness(t.handles, CountedKind);
    }
    if Tally(t.handles, ReleasingKind) >= 1 {
      var h := TallyWitness(t.handles, ReleasingKind);
    }
  }

  /** The data is never both released and handed over, nor either of them twice. */
  lemma ReleasedAtMostOnce(backing: Backing, t: State)
    requires Reachable(backing, t)
    ensures t.released + t.handedOver <= 1
    ensures t.handedOver > 0 ==> backing.Vec?
  {
    ReachableInv(backing, t);
  }

  /** A mutable slice exists only while its handle is the only one. */
  lemma MutableIsAlone(backing: Backing, t: State, m: nat, h: nat)
    requires Reachable(backing, t) && m < |t.handles| && h < |t.handles| && m != h
    requires t.handles[m].Mutable?
    ensures t.handles[h].Gone?
  {
    ReachableInv(backing, t);
    TallyPositive(t.handles, m, MutableKind);
    if t.handles[h].Counted() {
      TallyPair(t.handles, m, h, CountedKind);
    } else if t.handles[h].Releasing? {
      TallyPositive(t.handles, h, ReleasingKind);
    }
  }

  /** Static data is never freed or given away, and never passes the exclusivity check. */
  lemma StaticForever(t: State)
    requires Reachable(Static, t)
    ensures t.released == 0 && t.handedOver == 0 && t.count == 2
    ensures forall h :: 0 <= h < |t.handles| ==> !t.handles[h].Mutable?
  {
    ReachableInv(Static, t);
    forall h | 0 <= h < |t.handles|
      ensures !t.handles[h].Mutable?
    {
      if t.handles[h].Mutable? {
        TallyPositive(t.handles, h, MutableKind);
      }
    }
  }

  /** No other handle still holds a count. */
  ghost predicate Alone(t: State, h: nat) {
    forall g :: 0 <= g < |t.handles| && g != h ==> !t.handles[g].Counted()
  }

  /** A handle of owned storage reads a count of one exactly when it is the only handle left. */
  lemma AloneIsOne(backing: Backing, t: State, h: nat)
    requires Reachable(backing, t) && !backing.Static? && h < |t.handles| && t.handles[h].Counted()
    ensures t.count == 1 <==> Alone(t, h)
  {
    ReachableInv(backing, t);
    TallyPositive(t.handles, h, CountedKind);
    if Tally(t.handles, CountedKind) >= 2 {
      TallySet(t.handles, h, Gone, CountedKind);
      var g := TallyWitness(t.handles[h := Gone], CountedKind);
    } else {
      forall g | 0 <= g < |t.handles| && g != h
        ensures !t.handles[g].Counted()
      {
        if t.handles[g].Counted() {
          TallyPair(t.handles, h, g, CountedKind);
        }
      }
    }
  }

  /** The load in `try_into_vec` hands `Vec` data over exactly when the handle is the only one. */
  lemma LoneHandleTakes(t: State, h: nat)
    requires Reachable(Vec, t) && h < |t.handles| && t.handles[h].Taking?
    ensures Next(t, LoadTake(h)).handedOver == 1
       <==> forall g :: 0 <= g < |t.handles| && g != h ==> !t.handles[g].Counted()
  {
    AloneIsOne(Vec, t, h);
    ReachableInv(Vec, t);
    NeverFreedInUse(Vec, t, h);
  }

  /** The load in `try_as_mut_slice` lets the handle borrow mutably exactly when it is the only one. */
  lemma LoneHandleBorrows(backing: Backing, t: State, h: nat)
    requires Reachable(backing, t) && !backing.Static? && h < |t.handles| && t.handles[h].Borrowing?
    ensures Next(t, LoadBorrow(h)).handles[h].Mutable?
       <==> forall g :: 0 <= g < |t.handles| && g != h ==> !t.handles[g].Counted()
  {
    AloneIsOne(backing, t, h);
  }

  // The operations from beginning to end, when no other thread takes a step in between.

  lemma RunOne(s: State, a: Step)
    requires Enabled(s, a)
    ensures IsRun(s, [a], Next(s, a))
  {
    assert [a][1..] == [];
  }

  lemma RunTwo(s: State, a: Step, b: Step)
    requires Enabled(s, a) && Enabled(Next(s, a), b)
    ensures IsRun(s, [a, b], Next(Next(s, a), b))
  {
    assert [a, b][1..] == [b];
    RunOne(Next(s, a), b);
  }

  lemma RunThree(s: State, a: Step, b: Step, c: Step)
    requires Enabled(s, a) && Enabled(Next(s, a), b) && Enabled(Next(Next(s, a), b), c)
    ensures IsRun(s, [a, b, c], Next(Next(Next(s, a), b), c))
  {
    assert [a, b, c][1..] == [b, c];
    RunTwo(Next(s, a), b, c);
  }

  lemma ReachableStep(backing: Backing, t: State, step: Step)
    requires Reachable(backing, t) && Enabled(t, step)
    ensures Reachable(backing, Next(t, step))
  {
    var steps :| IsRun(Init(backing), steps, t);
    RunSnoc(Init(backing), steps, t, step);
  }

  lemma {:induction false} RunSnoc(s: State, steps: seq<Step>, t: State, step: Step)
    requires IsRun(s, steps, t) && Enabled(t, step)
    ensures IsRun(s, steps + [step], Next(t, step))
    decreases |steps|
  {
    if steps == [] {
      RunOne(s, step);
      assert steps + [step] == [step];
    } else {
      RunSnoc(Next(s, steps[0]), steps[1..], t, step);
      assert (steps + [step])[1..] == steps[1..] + [step];
    }
  }

  /** Reading through a handle and finishing leaves everything as it was. */
  lemma ReadRuns(t: State, h: nat)
    requires h < |t.handles| && t.handles[h].Live?
    ensures IsRun(t, [BeginRead(h), EndRead(h)], t)
  {
    RunTwo(t, BeginRead(h), EndRead(h));
    var n := t.handles[h].readers;
    assert t.handles[h := Live(n + 1)][h := Live(n)] == t.handles;
  }

  /**
   * `try_as_mut_slice` gives the slice out exactly for the only handle of owned storage; either way
   * everything is as before once the borrow ends.
   */
  lemma BorrowRuns(backing: Backing, t: State, h: nat)
    requires Reachable(backing, t) && h < |t.handles| && t.handles[h] == Live(0)
    ensures !backing.Static? && Alone(t, h) ==>
              && IsRun(t, [BeginBorrow(h), LoadBorrow(h)], t.(handles := t.handles[h := Mutable]))
              && IsRun(t, [BeginBorrow(h), LoadBorrow(h), EndBorrow(h)], t)
    ensures backing.Static? || !Alone(t, h) ==> IsRun(t, [BeginBorrow(h), LoadBorrow(h)], t)
  {
    hide IsRun, Tally, Inv;
    var u := Next(t, BeginBorrow(h));
    ReachableStep(backing, t, BeginBorrow(h));
    ExclusiveLoad(backing, t, u, h);
    RunTwo(t, BeginBorrow(h), LoadBorrow(h));
    assert t.handles[h := Borrowing][h := Mutable] == t.handles[h := Mutable];
    assert t.handles[h := Borrowing][h := Live(0)] == t.handles;
    if !backing.Static? && Alone(t, h) {
      RunThree(t, BeginBorrow(h), LoadBorrow(h), EndBorrow(h));
      assert t.handles[h := Mutable][h := Live(0)] == t.handles;
    }
  }

  /** What an exclusivity load sees, in terms of the handles before the operation began. */
  lemma ExclusiveLoad(backing: Backing, t: State, u: State, h: nat)
    requires Reachable(backing, t) && Reachable(backing, u) && h < |t.handles| && t.handles[h].Counted()
    requires |u.handles| == |t.handles| && u.handles == t.handles[h := u.handles[h]] && u.handles[h].Counted()
    ensures u.backing == backing && (u.count == 1 <==> !backing.Static? && Alone(t, h))
  {
    hide IsRun, Tally;
    ReachableInv(backing, u);
    if !backing.Static? {
      AloneIsOne(backing, u, h);
      assert forall g :: 0 <= g < |t.handles| && g != h ==> u.handles[g] == t.handles[g];
      assert Alone(u, h) <==> Alone(t, h);
    }
  }

  /** `try_into_vec` takes the data exactly for the only handle of `Vec` storage, and gives the handle back otherwise. */
  lemma TakeRuns(backing: Backing, t: State, h: nat)
    requires Reachable(backing, t) && h < |t.handles| && t.handles[h] == Live(0)
    ensures backing.Vec? && Alone(t, h) ==>
              IsRun(t, [BeginTake(h), LoadTake(h)], t.(handles := t.handles[h := Gone], handedOver := 1))
    ensures !backing.Vec? || !Alone(t, h) ==> IsRun(t, [BeginTake(h), LoadTake(h)], t)
  {
    hide IsRun, Tally, Inv;
    var u := Next(t, BeginTake(h));
    NeverFreedInUse(backing, t, h);
    ReachableStep(backing, t, BeginTake(h));
    ExclusiveLoad(backing, t, u, h);
    RunTwo(t, BeginTake(h), LoadTake(h));
    assert t.handles[h := Taking][h := Gone] == t.handles[h := Gone];
    assert t.handles[h := Taking][h := Live(0)] == t.handles;
  }

  /** Dropping a handle gives up one count; dropping the last one of owned storage frees the data. */
  lemma DropRuns(backing: Backing, t: State, h: nat)
    requires Reachable(backing, t) && h < |t.handles| && t.handles[h] == Live(0)
    ensures backing.Static? ==>
              IsRun(t, [BeginDrop(h), Decrement(h)], t.(handles := t.handles[h := Gone]))
    ensures !backing.Static? && !Alone(t, h) ==>
              IsRun(t, [BeginDrop(h), Decrement(h)], t.(handles := t.handles[h := Gone], count := t.count - 1))
    ensures !backing.Static? && Alone(t, h) ==>
              IsRun(t, [BeginDrop(h), Decrement(h), Free(h)],
                    t.(handles := t.handles[h := Gone], count := 0, released := 1))
  {
    hide IsRun, Tally, Inv;
    var u := Next(t, BeginDrop(h));
    NeverFreedInUse(backing, t, h);
    ReachableStep(backing, t, BeginDrop(h));
    ExclusiveLoad(backing, t, u, h);
    RunTwo(t, BeginDrop(h), Decrement(h));
    assert t.handles[h := Dropping][h := Gone] == t.handles[h := Gone];
    if !backing.Static? && Alone(t, h) {
      RunThree(t, BeginDrop(h), Decrement(h), Free(h));
      assert t.handles[h := Dropping][h := Releasing][h := Gone] == t.handles[h := Gone];
    }
  }

  /** A clone can be made while others read, and is a handle of its own: dropping it undoes the clone. */
  lemma CloneRuns(backing: Backing, t: State, h: nat)
    requires Reachable(backing, t) && h < |t.handles| && t.handles[h].Live?
    ensures IsRun(t, [Clone(h), BeginDrop(|t.handles|), Decrement(|t.handles|)], t.(handles := t.handles + [Gone]))
    ensures Next(t, Clone(h)).handles == t.handles + [Live(0)]
  {
    hide IsRun, Tally, Inv;
    var g := |t.handles|;
    var u := Next(t, Clone(h));
    ReachableStep(backing, t, Clone(h));
    ExclusiveLoad(backing, u, u, g);
    assert u.handles[h].Counted();
    assert !Alone(u, g);
    RunThree(t, Clone(h), BeginDrop(g), Decrement(g));
    assert u.handles[g := Dropping][g := Gone] == t.handles + [Gone];
  }

  // What a run did, read off its steps.

  ghost function Clones(steps: seq<Step>): nat {
    if steps == [] then 0 else (if steps[0].Clone? then 1 else 0) + Clones(steps[1..])
  }

  ghost function Decrements(steps: seq<Step>): nat {
    if steps == [] then 0 else (if steps[0].Decrement? then 1 else 0) + Decrements(steps[1..])
  }

  ghost function Frees(steps: seq<Step>): nat {
    if steps == [] then 0 else (if steps[0].Free? then 1 else 0) + Frees(steps[1..])
  }

  /** How often one step was taken. */
  ghost function Times(steps: seq<Step>, step: Step): nat {
    if steps == [] then 0 else (if steps[0] == step then 1 else 0) + Times(steps[1..], step)
  }

  /** Handles come from clones and go by decrements and by handing the data over. */
  lemma {:induction false} HandlesCounted(s: State, steps: seq<Step>, t: State)
    requires IsRun(s, steps, t)
    ensures |t.handles| == |s.handles| + Clones(steps)
    ensures Tally(t.handles, CountedKind) + Decrements(steps) + t.handedOver - s.handedOver ==
            Tally(s.handles, CountedKind) + Clones(steps)
    ensures t.released == s.released + Frees(steps)
    decreases |steps|
  {
    if steps != [] {
      NextTally(s, steps[0], CountedKind);
      HandlesCounted(Next(s, steps[0]), steps[1..], t);
    }
  }

  ghost function Readers(s: State, h: nat): nat {
    if h < |s.handles| && s.handles[h].Live? then s.handles[h].readers else 0
  }

  /** The readers of a handle are the reads that began and have not ended. */
  lemma {:induction false} ReadersCounted(s: State, steps: seq<Step>, t: State, h: nat)
    requires IsRun(s, steps, t)
    ensures Readers(t, h) + Times(steps, EndRead(h)) == Readers(s, h) + Times(steps, BeginRead(h))
    decreases |steps|
  {
    if steps != [] {
      ReadersCounted(Next(s, steps[0]), steps[1..], t, h);
    }
  }

  /** A new storage has one handle, nobody reads it, and nothing was freed: all else comes from the steps. */
  lemma FromTheStart(backing: Backing, steps: seq<Step>, t: State, h: nat)
    requires IsRun(Init(backing), steps, t)
    ensures |t.handles| == 1 + Clones(steps)
    ensures Tally(t.handles, CountedKind) + Decrements(steps) + t.handedOver == 1 + Clones(steps)
    ensures t.released == Frees(steps)
    ensures Readers(t, h) + Times(steps, EndRead(h)) == Times(steps, BeginRead(h))
  {
    var s := Init(backing);
    assert s.handles[..0] == [] && Tally(s.handles, CountedKind) == 1;
    HandlesCounted(s, steps, t);
    ReadersCounted(s, steps, t, h);
  }
}
