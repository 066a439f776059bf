/** Concurrent callers of one connection's handshake, interleaved at every access to shared state. */
module Once {
  import opened Bytes

  datatype Pc =
    | Calling               // about to load handshakeDone without the mutex
    | WantsMutex
    | Checking              // holds handshakeMutex, about to look again
    | Shaking               // runs the handshake
    | SettingIn | SettingOut | Storing
    | Releasing(ok: bool)
    | Returned(ok: bool)

  datatype World = World(
    pcs: seq<Pc>,
    mutex: Option<nat>,
    done: bool,
    failed: bool,           // handshakeErr != nil
    inSet: bool,
    outSet: bool,
    runs: nat               // history: handshakes started
  )

  function Start(n: nat): World {
    World(seq(n, _ => Calling), None, false, false, false, false, 0)
  }

  /** The next action of caller i; ok is how the handshake ends if this is the caller running it. */
  function Step(w: World, i: nat, ok: bool): World
    requires i < |w.pcs|
  {
    match w.pcs[i]
    case Calling => Goto(w, i, if w.done then Returned(true) else WantsMutex)
    case WantsMutex => if w.mutex.Some? then w else Goto(w, i, Checking).(mutex := Some(i))
    case Checking =>
      if w.done then Goto(w, i, Releasing(true))
      else if w.failed then Goto(w, i, Releasing(false))
      else Goto(w, i, Shaking).(runs := w.runs + 1)
    case Shaking =>
      if ok then Goto(w, i, SettingIn) else Goto(w, i, Releasing(false)).(failed := true)
    case SettingIn => Goto(w, i, SettingOut).(inSet := true)
    case SettingOut => Goto(w, i, Storing).(outSet := true)
    case Storing => Goto(w, i, Releasing(true)).(done := true)
    case Releasing(r) => Goto(w, i, Returned(r)).(mutex := None)
    case Returned(_) => w
  }

  function Goto(w: World, i: nat, pc: Pc): World
    requires i < |w.pcs|
  {
    w.(pcs := w.pcs[i := pc])
  }

  function RunSchedule(w: World, schedule: seq<(nat, bool)>): World
    decreases |schedule|
  {
    if schedule == [] then w
    else
      var (i, ok) := schedule[0];
      RunSchedule(if i < |w.pcs| then Step(w, i, ok) else w, schedule[1..])
  }

  predicate Critical(pc: Pc) {
    !pc.Calling? && !pc.WantsMutex? && !pc.Returned?
  }

  predicate Running(pc: Pc) {
    pc.Shaking? || pc.SettingIn? || pc.SettingOut? || pc.Storing?
  }

  ghost predicate CallerInv(w: World, i: nat)
    requires i < |w.pcs|
  {
    var pc := w.pcs[i];
    && (Critical(pc) <==> w.mutex == Some(i))
    && (Running(pc) ==> w.runs == 1 && !w.done && !w.failed)
    && (pc.SettingOut? || pc.Storing? ==> w.inSet)
    && (pc.Storing? ==> w.outSet)
    && (pc == Returned(true) || pc == Releasing(true) ==> w.done)
    && (pc == Returned(false) || pc == Releasing(false) ==> w.failed)
  }

  ghost predicate Inv(w: World) {
    (forall i :: 0 <= i < |w.pcs| ==> CallerInv(w, i)) && SharedInv(w)
  }

  ghost predicate SharedInv(w: World) {
    && (w.mutex.Some? ==> w.mutex.value < |w.pcs|)
    && w.runs <= 1
    && (w.runs == 0 ==> !w.done && !w.failed)
    && (w.runs == 1 ==> w.done || w.failed || (w.mutex.Some? && Running(w.pcs[w.mutex.value])))
    && !(w.done && w.failed)
    && (w.done ==> w.inSet && w.outSet)
  }

  lemma StepKeepsShared(w: World, i: nat, ok: bool)
    requires i < |w.pcs| && CallerInv(w, i) && SharedInv(w)
    ensures SharedInv(Step(w, i, ok)) && |Step(w, i, ok).pcs| == |w.pcs| && CallerInv(Step(w, i, ok), i)
  {
  }

  lemma FlagsStay(w: World, i: nat, ok: bool)
    requires i < |w.pcs|
    ensures w.failed ==> Step(w, i, ok).failed
    ensures w.done ==> Step(w, i, ok).done
  {
  }

  lemma StepKeepsOther(w: World, i: nat, ok: bool, j: nat)
    requires i < |w.pcs| && j < |w.pcs| && i != j && CallerInv(w, i) && CallerInv(w, j)
    ensures CallerInv(Step(w, i, ok), j)
  {
  }

  lemma StepKeeps(w: World, i: nat, ok: bool)
    requires Inv(w) && i < |w.pcs|
    ensures Inv(Step(w, i, ok)) && |Step(w, i, ok).pcs| == |w.pcs|
    ensures w.failed ==> Step(w, i, ok).failed
    ensures w.done ==> Step(w, i, ok).done
  {
    hide CallerInv;
    hide SharedInv;
    hide Step;
    StepKeepsShared(w, i, ok);
    FlagsStay(w, i, ok);
    forall j | 0 <= j < |w.pcs| && j != i ensures CallerInv(Step(w, i, ok), j) {
      StepKeepsOther(w, i, ok, j);
    }
  }

  lemma {:induction false} RunKeeps(w: World, schedule: seq<(nat, bool)>)
    requires Inv(w)
    ensures Inv(RunSchedule(w, schedule))
    ensures |RunSchedule(w, schedule).pcs| == |w.pcs|
    ensures w.failed ==> RunSchedule(w, schedule).failed
    ensures w.done ==> RunSchedule(w, schedule).done
    decreases |schedule|
  {
    hide Inv;
    hide Step;
    if schedule != [] {
      var (i, ok) := schedule[0];
      if i < |w.pcs| {
        StepKeeps(w, i, ok);
      }
      RunKeeps(if i < |w.pcs| then Step(w, i, ok) else w, schedule[1..]);
    }
  }

  /**
   Over every interleaving of any number of callers: at most one handshake runs; once it has
   failed nobody is ever told that it succeeded, and nobody is told that it failed unless it
   did; and whoever is told of success finds both ciphers set, by a handshake that ran.
   */
  lemma OneHandshake(callers: nat, schedule: seq<(nat, bool)>, later: seq<(nat, bool)>)
    ensures var w := RunSchedule(Start(callers), schedule);
            var w' := RunSchedule(w, later);
            && |w'.pcs| == callers && w'.runs <= 1
            && (w.failed ==> forall i :: 0 <= i < callers ==> w'.pcs[i] != Returned(true))
            && (forall i :: 0 <= i < callers && w'.pcs[i] == Returned(true) ==>
                  w'.inSet && w'.outSet && w'.done && w'.runs == 1)
            && (forall i :: 0 <= i < callers && w'.pcs[i] == Returned(false) ==> w'.failed && w'.runs == 1)
            && (forall i, j :: 0 <= i < callers && 0 <= j < callers && w'.pcs[i].Returned? && w'.pcs[j].Returned? ==>
                  w'.pcs[i] == w'.pcs[j])
  {
    RunKeeps(Start(callers), schedule);
    var w := RunSchedule(Start(callers), schedule);
    RunKeeps(w, later);
    var w' := RunSchedule(w, later);
    forall i | 0 <= i < callers && w'.pcs[i].Returned?
      ensures w'.pcs[i] == Returned(w'.done) && (w'.done || w'.failed)
    {
      assert CallerInv(w', i);
    }
  }

  /** A handshake that does not fail is not reported to have failed. */
  lemma {:induction false} NobodyFails(w: World, schedule: seq<(nat, bool)>)
    requires Inv(w) && !w.failed && forall k :: 0 <= k < |schedule| ==> schedule[k].1
    ensures !RunSchedule(w, schedule).failed
    decreases |schedule|
  {
    hide Inv;
    if schedule != [] {
      var (i, ok) := schedule[0];
      assert schedule[0].1;
      assert forall k :: 0 <= k < |schedule| - 1 ==> schedule[1..][k] == schedule[k + 1];
      if i < |w.pcs| {
        StepKeeps(w, i, ok);
        SucceedsStep(w, i);
      }
      hide Step;
      NobodyFails(if i < |w.pcs| then Step(w, i, ok) else w, schedule[1..]);
    }
  }

  lemma SucceedsStep(w: World, i: nat)
    requires i < |w.pcs| && !w.failed
    ensures !Step(w, i, true).failed
  {
  }

  /** As long as some caller has not returned, some caller can go on. */
  lemma NeverStuck(w: World, i: nat) returns (j: nat)
    requires Inv(w) && i < |w.pcs| && !w.pcs[i].Returned?
    ensures j < |w.pcs| && forall ok :: Step(w, j, ok) != w
  {
    assert CallerInv(w, i);
    j := if w.mutex.Some? && w.pcs[i] == WantsMutex then w.mutex.value else i;
    assert CallerInv(w, j);
    forall ok ensures Step(w, j, ok).pcs[j] != w.pcs[j] {
    }
  }
}
