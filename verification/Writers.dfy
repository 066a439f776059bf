/**
 Concurrent Write and Close calls on one connection, interleaved at every lock operation,
 seal and raw write. Call i of the list `calls` is one invocation on some goroutine.
 */
module Writers {
  import opened Bytes
  import opened Record
  import opened Framing

  datatype Call = WriteCall(data: bytes) | CloseCall

  datatype Rec = Rec(call: nat, contentType: byte, payload: bytes)

  /** Where a call is; the number counts the records it has sealed. */
  datatype Pc =
    | Ready
    | Closing                            // owns closeOnce, waits for writeMu
    | Locked(count: nat)                 // holds writeMu
    | InFlight(count: nat)               // holds writeMu, last record sealed but not yet written
    | RawClosing(count: nat)             // writeMu released, raw connection still open
    | Finished(count: nat, ok: bool)

  datatype World = World(
    pcs: seq<Pc>,
    holder: Option<nat>,     // writeMu
    closer: Option<nat>,     // the call that won closeOnce
    sealed: seq<Rec>,        // index = record sequence number
    wire: seq<nat>,          // sequence numbers of the records written in full
    broken: bool,            // a raw write (or its deadline) has failed
    rawClosed: bool,
    order: seq<nat>          // history: calls by acquisition of writeMu
  )

  function CountOf(pc: Pc): nat {
    match pc
    case Ready => 0
    case Closing => 0
    case Locked(n) => n
    case InFlight(n) => n
    case RawClosing(n) => n
    case Finished(n, _) => n
  }

  function Start(n: nat): World {
    World(seq(n, _ => Ready), None, None, [], [], false, false, [])
  }

  /** The records a call seals when nothing stops it. */
  function Records(calls: seq<Call>, i: nat): seq<Rec>
    requires i < |calls|
  {
    match calls[i]
    case WriteCall(data) =>
      var cs := Chunks(data);
      seq(|cs|, k requires 0 <= k < |cs| => Rec(i, APPLICATION_DATA, cs[k]))
    case CloseCall => [Rec(i, ALERT, [1, 0])]
  }

  /** What call i does next, if it can move; ok is the outcome of the raw write it may make. */
  function Step(calls: seq<Call>, w: World, i: nat, ok: bool): Option<World>
    requires i < |calls| == |w.pcs|
  {
    var todo := Records(calls, i);
    match w.pcs[i]
    case Ready =>
      if calls[i].CloseCall? then
        if w.closer == None then Some(w.(pcs := w.pcs[i := Closing], closer := Some(i)))
        else if w.closer.value < |w.pcs| && w.pcs[w.closer.value].Finished? then
          Some(w.(pcs := w.pcs[i := Finished(0, true)]))
        else None
      else Acquire(w, i)
    case Closing => Acquire(w, i)
    case Locked(n) =>
      if n >= |todo| then Some(Release(w, i, Finished(n, true)))
      else if |w.sealed| >= MAX_SEQ then
        Some(Release(w, i, if calls[i].CloseCall? then RawClosing(n) else Finished(n, false)))
      else Some(w.(pcs := w.pcs[i := InFlight(n + 1)], sealed := w.sealed + [todo[n]]))
    case InFlight(n) =>
      if ok && !w.rawClosed && |w.sealed| > 0 then
        var w' := w.(wire := w.wire + [|w.sealed| - 1]);
        if calls[i].CloseCall? then Some(Release(w', i, RawClosing(n)))
        else Some(w'.(pcs := w.pcs[i := Locked(n)]))
      else
        var w' := w.(broken := true);
        Some(Release(w', i, if calls[i].CloseCall? then RawClosing(n) else Finished(n, false)))
    case RawClosing(n) => Some(w.(pcs := w.pcs[i := Finished(n, true)], rawClosed := true))
    case Finished(_, _) => None
  }

  function Acquire(w: World, i: nat): Option<World>
    requires i < |w.pcs|
  {
    if w.holder.Some? then None
    else Some(w.(pcs := w.pcs[i := Locked(0)], holder := Some(i), order := w.order + [i]))
  }

  function Release(w: World, i: nat, pc: Pc): World
    requires i < |w.pcs|
  {
    w.(pcs := w.pcs[i := pc], holder := None)
  }

  // What every step keeps ----------------------------------------------------------

  function Take(s: seq<Rec>, n: nat): seq<Rec> {
    if n <= |s| then s[..n] else s
  }

  predicate ValidOrder(calls: seq<Call>, pcs: seq<Pc>, order: seq<nat>) {
    |pcs| == |calls| && forall k :: 0 <= k < |order| ==> order[k] < |calls|
  }

  /** The calls run one after the other, each contributing what it has sealed. */
  function Serial(calls: seq<Call>, pcs: seq<Pc>, order: seq<nat>): seq<Rec>
    requires ValidOrder(calls, pcs, order)
  {
    if order == [] then []
    else
      var last := order[|order| - 1];
      Serial(calls, pcs, order[..|order| - 1]) + Take(Records(calls, last), CountOf(pcs[last]))
  }

  lemma {:induction false} SerialFrame(calls: seq<Call>, pcs: seq<Pc>, pcs': seq<Pc>, order: seq<nat>)
    requires ValidOrder(calls, pcs, order) && ValidOrder(calls, pcs', order)
    requires forall k :: 0 <= k < |order| ==> CountOf(pcs[order[k]]) == CountOf(pcs'[order[k]])
    ensures Serial(calls, pcs, order) == Serial(calls, pcs', order)
  {
    if order != [] {
      SerialFrame(calls, pcs, pcs', order[..|order| - 1]);
    }
  }

  function Alerts(rs: seq<Rec>): nat {
    if rs == [] then 0
    else Alerts(rs[..|rs| - 1]) + if rs[|rs| - 1].contentType == ALERT then 1 else 0
  }

  predicate Holding(pc: Pc) {
    pc.Locked? || pc.InFlight?
  }

  /** Locks: one holder, who is last in the order; nobody is in the order twice. */
  ghost predicate LockInv(calls: seq<Call>, pcs: seq<Pc>, holder: Option<nat>, order: seq<nat>) {
    && ValidOrder(calls, pcs, order)
    && (forall i :: 0 <= i < |calls| ==> (Holding(pcs[i]) <==> holder == Some(i)))
    && (holder.Some? ==> order != [] && order[|order| - 1] == holder.value < |calls|)
    && (forall a, b :: 0 <= a < b < |order| ==> order[a] != order[b])
    && (forall k :: 0 <= k < |order| ==> !pcs[order[k]].Ready? && !pcs[order[k]].Closing?)
    && (forall i :: 0 <= i < |calls| && i !in order ==> CountOf(pcs[i]) == 0)
  }

  /** One call: it has sealed no more than its records, all of them if a Write ended well. */
  ghost predicate CallInv(calls: seq<Call>, i: nat, pc: Pc, closer: Option<nat>)
    requires i < |calls|
  {
    && CountOf(pc) <= |Records(calls, i)|
    && (pc.InFlight? ==> pc.count > 0)
    && (calls[i].WriteCall? ==>
          !pc.Closing? && !pc.RawClosing?
          && (pc.Finished? && pc.ok ==> pc.count == |Records(calls, i)|))
    && (calls[i].CloseCall? ==>
          && (pc.Locked? ==> pc.count == 0)
          && (!pc.Ready? && closer != Some(i) ==> pc == Finished(0, true)))
  }

  ghost predicate CallsInv(calls: seq<Call>, pcs: seq<Pc>, closer: Option<nat>) {
    && |pcs| == |calls|
    && (forall i :: 0 <= i < |calls| ==> CallInv(calls, i, pcs[i], closer))
    && (closer.Some? ==> closer.value < |calls| && calls[closer.value].CloseCall? && !pcs[closer.value].Ready?)
  }

  function ClosersCount(pcs: seq<Pc>, closer: Option<nat>): nat {
    if closer.Some? && closer.value < |pcs| then CountOf(pcs[closer.value]) else 0
  }

  /** The sealed records are those of the calls run one after the other; one alert at most. */
  ghost predicate SealedInv(calls: seq<Call>, pcs: seq<Pc>, closer: Option<nat>, order: seq<nat>, sealed: seq<Rec>) {
    && ValidOrder(calls, pcs, order)
    && sealed == Serial(calls, pcs, order)
    && |sealed| <= MAX_SEQ
    && Alerts(sealed) == ClosersCount(pcs, closer)
  }

  predicate InFlightNow(pcs: seq<Pc>, holder: Option<nat>) {
    holder.Some? && holder.value < |pcs| && pcs[holder.value].InFlight?
  }

  /** Until a raw write fails, the wire carries every sealed record but one still in flight. */
  ghost predicate WireInv(w: World) {
    !w.broken ==>
      && |w.sealed| == |w.wire| + (if InFlightNow(w.pcs, w.holder) then 1 else 0)
      && forall j :: 0 <= j < |w.wire| ==> w.wire[j] == j
  }

  ghost predicate Inv(calls: seq<Call>, w: World) {
    && LockInv(calls, w.pcs, w.holder, w.order)
    && CallsInv(calls, w.pcs, w.closer)
    && SealedInv(calls, w.pcs, w.closer, w.order, w.sealed)
    && WireInv(w)
  }

  lemma StartKeeps(calls: seq<Call>)
    ensures Inv(calls, Start(|calls|))
  {
  }

  lemma CallsKeep(calls: seq<Call>, pcs: seq<Pc>, closer: Option<nat>, i: nat, pc: Pc, closer': Option<nat>)
    requires CallsInv(calls, pcs, closer) && i < |calls| && CallInv(calls, i, pc, closer') && !pc.Ready?
    requires closer' == closer || (closer == None && closer' == Some(i) && calls[i].CloseCall?)
    ensures CallsInv(calls, pcs[i := pc], closer')
  {
    hide Records;
  }

  /** A move that seals nothing leaves the serial order of records as it was. */
  lemma SealedKeeps(calls: seq<Call>, pcs: seq<Pc>, closer: Option<nat>, order: seq<nat>, sealed: seq<Rec>, i: nat,
      pc: Pc, closer': Option<nat>)
    requires SealedInv(calls, pcs, closer, order, sealed) && i < |calls| && CountOf(pc) == CountOf(pcs[i])
    requires closer' == closer || (closer == None && closer' == Some(i) && CountOf(pc) == 0)
    ensures SealedInv(calls, pcs[i := pc], closer', order, sealed)
  {
    SerialFrame(calls, pcs, pcs[i := pc], order);
    hide Serial;
  }

  lemma SealedAcquire(calls: seq<Call>, pcs: seq<Pc>, closer: Option<nat>, order: seq<nat>, sealed: seq<Rec>, i: nat)
    requires SealedInv(calls, pcs, closer, order, sealed) && i < |calls| && CountOf(pcs[i]) == 0
    ensures SealedInv(calls, pcs[i := Locked(0)], closer, order + [i], sealed)
  {
    SealedKeeps(calls, pcs, closer, order, sealed, i, Locked(0), closer);
    hide Records;
    assert (order + [i])[..|order|] == order;
    assert Take(Records(calls, i), 0) == [];
  }

  lemma SealedGrows(calls: seq<Call>, pcs: seq<Pc>, holder: Option<nat>, closer: Option<nat>, order: seq<nat>,
      sealed: seq<Rec>, i: nat, n: nat)
    requires LockInv(calls, pcs, holder, order) && CallsInv(calls, pcs, closer)
    requires SealedInv(calls, pcs, closer, order, sealed)
    requires i < |calls| && pcs[i] == Locked(n) && n < |Records(calls, i)| && |sealed| < MAX_SEQ
    ensures SealedInv(calls, pcs[i := InFlight(n + 1)], closer, order, sealed + [Records(calls, i)[n]])
  {
    hide Serial;
    hide Alerts;
    var r := Records(calls, i)[n];
    assert CallInv(calls, i, pcs[i], closer);
    assert r.contentType == ALERT <==> closer == Some(i);
    SerialGrows(calls, pcs, order, i, n);
    AlertsGrow(sealed, r);
  }

  lemma SerialGrows(calls: seq<Call>, pcs: seq<Pc>, order: seq<nat>, i: nat, n: nat)
    requires ValidOrder(calls, pcs, order) && i < |calls| && CountOf(pcs[i]) == n < |Records(calls, i)|
    requires order != [] && order[|order| - 1] == i && forall k :: 0 <= k < |order| - 1 ==> order[k] != i
    ensures Serial(calls, pcs[i := InFlight(n + 1)], order) == Serial(calls, pcs, order) + [Records(calls, i)[n]]
  {
    hide Records;
    var pcs' := pcs[i := InFlight(n + 1)];
    var todo, r, earlier := Records(calls, i), Records(calls, i)[n], order[..|order| - 1];
    SerialFrame(calls, pcs, pcs', earlier);
    var front := Serial(calls, pcs, earlier);
    assert Take(todo, n + 1) == Take(todo, n) + [r];
    assert front + (Take(todo, n) + [r]) == front + Take(todo, n) + [r];
  }

  lemma AlertsGrow(sealed: seq<Rec>, r: Rec)
    ensures Alerts(sealed + [r]) == Alerts(sealed) + if r.contentType == ALERT then 1 else 0
  {
    assert (sealed + [r])[..|sealed|] == sealed;
  }

  /** How a step bears on the sealed records. */
  datatype Effect = Acquires | Grows(n: nat) | Quiet

  function EffectOf(calls: seq<Call>, w: World, i: nat, ok: bool): Effect
    requires i < |calls| == |w.pcs| && Step(calls, w, i, ok).Some?
  {
    var w' := Step(calls, w, i, ok).value;
    if w'.order != w.order then Acquires
    else if w'.sealed != w.sealed then Grows(CountOf(w.pcs[i]))
    else Quiet
  }

  lemma EffectMeans(calls: seq<Call>, w: World, i: nat, ok: bool)
    requires i < |calls| == |w.pcs| && CallInv(calls, i, w.pcs[i], w.closer) && Step(calls, w, i, ok).Some?
    ensures var w' := Step(calls, w, i, ok).value;
            match EffectOf(calls, w, i, ok)
            case Acquires => CountOf(w.pcs[i]) == 0 && w'.pcs == w.pcs[i := Locked(0)] && w'.order == w.order + [i]
                             && w'.sealed == w.sealed && w'.closer == w.closer
            case Grows(n) => w.pcs[i] == Locked(n) && n < |Records(calls, i)| && |w.sealed| < MAX_SEQ
                             && w'.pcs == w.pcs[i := InFlight(n + 1)] && w'.order == w.order
                             && w'.sealed == w.sealed + [Records(calls, i)[n]] && w'.closer == w.closer
            case Quiet => CountOf(w'.pcs[i]) == CountOf(w.pcs[i]) && w'.order == w.order && w'.sealed == w.sealed
                          && (w'.closer == w.closer
                             || (w.closer == None && w'.closer == Some(i) && CountOf(w'.pcs[i]) == 0))
  {
    hide Records;
    assert |w.order + [i]| != |w.order|;
    assert w.pcs[i].Locked? && w.pcs[i].count < |Records(calls, i)| ==>
        |w.sealed + [Records(calls, i)[w.pcs[i].count]]| != |w.sealed|;
  }

  lemma CallOf(calls: seq<Call>, pcs: seq<Pc>, closer: Option<nat>, i: nat)
    requires CallsInv(calls, pcs, closer) && i < |calls|
    ensures |pcs| == |calls| && CallInv(calls, i, pcs[i], closer)
  {
    hide CallInv;
  }

  lemma SealedStep(calls: seq<Call>, w: World, i: nat, ok: bool)
    requires LockInv(calls, w.pcs, w.holder, w.order) && CallsInv(calls, w.pcs, w.closer)
    requires SealedInv(calls, w.pcs, w.closer, w.order, w.sealed) && i < |calls| && Step(calls, w, i, ok).Some?
    ensures var w' := Step(calls, w, i, ok).value; SealedInv(calls, w'.pcs, w'.closer, w'.order, w'.sealed)
  {
    hide *;
    CallOf(calls, w.pcs, w.closer, i);
    EffectMeans(calls, w, i, ok);
    OwnCallKeeps(calls, w, i, ok);
    var w' := Step(calls, w, i, ok).value;
    match EffectOf(calls, w, i, ok)
    case Acquires =>
      SealedAcquire(calls, w.pcs, w.closer, w.order, w.sealed, i);
    case Grows(n) =>
      SealedGrows(calls, w.pcs, w.holder, w.closer, w.order, w.sealed, i, n);
    case Quiet =>
      SealedKeeps(calls, w.pcs, w.closer, w.order, w.sealed, i, w'.pcs[i], w'.closer);
  }

  lemma StepKeeps(calls: seq<Call>, w: World, i: nat, ok: bool)
    requires Inv(calls, w) && i < |calls| && Step(calls, w, i, ok).Some?
    ensures Inv(calls, Step(calls, w, i, ok).value)
  {
    hide CallInv;
    hide CallsInv;
    hide LockInv;
    hide SealedInv;
    hide WireInv;
    hide Step;
    CallOf(calls, w.pcs, w.closer, i);
    LockKeeps(calls, w, i, ok);
    WireKeeps(calls, w, i, ok);
    SealedStep(calls, w, i, ok);
    OwnCallKeeps(calls, w, i, ok);
    var w' := Step(calls, w, i, ok).value;
    CallsKeep(calls, w.pcs, w.closer, i, w'.pcs[i], w'.closer);
  }

  lemma WireKeeps(calls: seq<Call>, w: World, i: nat, ok: bool)
    requires LockInv(calls, w.pcs, w.holder, w.order) && WireInv(w)
    requires i < |calls| && Step(calls, w, i, ok).Some?
    ensures WireInv(Step(calls, w, i, ok).value)
  {
    hide Records;
  }

  lemma OwnCallKeeps(calls: seq<Call>, w: World, i: nat, ok: bool)
    requires CallsInv(calls, w.pcs, w.closer) && i < |calls| && Step(calls, w, i, ok).Some?
    ensures var w' := Step(calls, w, i, ok).value;
            && w'.pcs == w.pcs[i := w'.pcs[i]]
            && !w'.pcs[i].Ready?
            && CallInv(calls, i, w'.pcs[i], w'.closer)
            && (w'.closer == w.closer || (w.closer == None && w'.closer == Some(i) && calls[i].CloseCall?))
  {
    hide Records;
    assert CallInv(calls, i, w.pcs[i], w.closer);
  }

  lemma HolderHolds(calls: seq<Call>, pcs: seq<Pc>, holder: Option<nat>, order: seq<nat>, i: nat)
    requires LockInv(calls, pcs, holder, order) && i < |calls|
    ensures |pcs| == |calls| && (Holding(pcs[i]) <==> holder == Some(i))
  {
    hide Holding;
  }

  /** A step takes the lock, or leaves the queue alone and keeps or releases it. */
  lemma LockOfStep(calls: seq<Call>, w: World, i: nat, ok: bool)
    requires i < |calls| == |w.pcs| && Step(calls, w, i, ok).Some? && CallInv(calls, i, w.pcs[i], w.closer)
    requires Holding(w.pcs[i]) <==> w.holder == Some(i)
    ensures var w', pc := Step(calls, w, i, ok).value, w.pcs[i];
            |w'.pcs| == |calls| && w'.pcs == w.pcs[i := w'.pcs[i]] &&
            if w'.order != w.order then
              && (pc.Ready? || pc.Closing?) && w'.pcs[i] == Locked(0)
              && w.holder == None && w'.holder == Some(i) && w'.order == w.order + [i]
            else
              && !w'.pcs[i].Ready? && (w'.pcs[i].Closing? ==> pc.Ready?)
              && (Holding(w'.pcs[i]) ==> Holding(pc))
              && (!Holding(pc) ==> CountOf(w'.pcs[i]) == CountOf(pc))
              && w'.holder == if Holding(w'.pcs[i]) || !Holding(pc) then w.holder else None
  {
    hide Records;
  }

  lemma LockKeeps(calls: seq<Call>, w: World, i: nat, ok: bool)
    requires LockInv(calls, w.pcs, w.holder, w.order) && i < |calls| && Step(calls, w, i, ok).Some?
    requires CallInv(calls, i, w.pcs[i], w.closer)
    ensures var w' := Step(calls, w, i, ok).value; LockInv(calls, w'.pcs, w'.holder, w'.order)
  {
    hide *;
    HolderHolds(calls, w.pcs, w.holder, w.order, i);
    LockOfStep(calls, w, i, ok);
    var w' := Step(calls, w, i, ok).value;
    if w'.order != w.order {
      LockAcquired(calls, w.pcs, w.order, i);
    } else {
      LockMoved(calls, w.pcs, w.holder, w.order, i, w'.pcs[i]);
    }
  }

  lemma LockAcquired(calls: seq<Call>, pcs: seq<Pc>, order: seq<nat>, i: nat)
    requires LockInv(calls, pcs, None, order) && i < |calls| && (pcs[i].Ready? || pcs[i].Closing?)
    ensures LockInv(calls, pcs[i := Locked(0)], Some(i), order + [i])
  {
  }

  lemma LockMoved(calls: seq<Call>, pcs: seq<Pc>, holder: Option<nat>, order: seq<nat>, i: nat, pc: Pc)
    requires LockInv(calls, pcs, holder, order) && i < |calls|
    requires !pc.Ready? && (pc.Closing? ==> pcs[i].Ready?)
    requires Holding(pc) ==> Holding(pcs[i])
    requires !Holding(pcs[i]) ==> CountOf(pc) == CountOf(pcs[i])
    ensures LockInv(calls, pcs[i := pc], if Holding(pc) || !Holding(pcs[i]) then holder else None, order)
  {
    assert Holding(pcs[i]) ==> i in order;
  }

  /** A schedule picks who moves next and how its raw write would turn out. */
  function RunSchedule(calls: seq<Call>, w: World, schedule: seq<(nat, bool)>): (w': World)
    requires |w.pcs| == |calls|
    ensures |w'.pcs| == |calls|
    decreases |schedule|
  {
    if schedule == [] then w
    else
      var (i, ok) := schedule[0];
      var next := if i < |calls| && Step(calls, w, i, ok).Some? then Step(calls, w, i, ok).value else w;
      RunSchedule(calls, next, schedule[1..])
  }

  lemma {:induction false} RunKeeps(calls: seq<Call>, w: World, schedule: seq<(nat, bool)>)
    requires Inv(calls, w)
    ensures Inv(calls, RunSchedule(calls, w, schedule))
    decreases |schedule|
  {
    if schedule != [] {
      var (i, ok) := schedule[0];
      if i < |calls| && Step(calls, w, i, ok).Some? {
        StepKeeps(calls, w, i, ok);
        RunKeeps(calls, Step(calls, w, i, ok).value, schedule[1..]);
      } else {
        RunKeeps(calls, w, schedule[1..]);
      }
    }
  }

  // The guarantees -------------------------------------------------------------------

  /** Call i's records occupy one stretch of the sealed sequence, from `start`. */
  predicate Contiguous(calls: seq<Call>, w: World, i: nat, start: nat)
    requires i < |calls| == |w.pcs|
  {
    var block := Take(Records(calls, i), CountOf(w.pcs[i]));
    start + |block| <= |w.sealed| && w.sealed[start..start + |block|] == block
  }

  ghost predicate HasBlock(calls: seq<Call>, w: World, i: nat)
    requires i < |calls| == |w.pcs|
  {
    exists start :: Contiguous(calls, w, i, start)
  }

  lemma SliceOfFront<T>(front: seq<T>, more: seq<T>, lo: nat, hi: nat)
    requires lo <= hi <= |front|
    ensures (front + more)[lo..hi] == front[lo..hi]
  {
  }

  lemma {:induction false} BlockInSerial(calls: seq<Call>, pcs: seq<Pc>, order: seq<nat>, i: nat) returns (start: nat)
    requires ValidOrder(calls, pcs, order) && i in order
    ensures var s := Serial(calls, pcs, order);
            var block := Take(Records(calls, i), CountOf(pcs[i]));
            start + |block| <= |s| && s[start..start + |block|] == block
  {
    hide Records;
    var n := |order| - 1;
    var front := Serial(calls, pcs, order[..n]);
    if order[n] == i {
      start := |front|;
    } else {
      start := BlockInSerial(calls, pcs, order[..n], i);
      var block := Take(Records(calls, i), CountOf(pcs[i]));
      hide CountOf;
      SliceOfFront(front, Take(Records(calls, order[n]), CountOf(pcs[order[n]])), start, start + |block|);
    }
  }

  /**
   In every interleaving: until the first failed raw write the j-th record on the wire is the
   one sealed with sequence number j; every call's records are contiguous and are the first of
   its chunks in order, all of them once a Write has returned without error; and at most one
   close_notify is ever sealed.
   */
  lemma ConcurrentWriters(calls: seq<Call>, schedule: seq<(nat, bool)>)
    ensures var w := RunSchedule(calls, Start(|calls|), schedule);
            && |w.pcs| == |calls|
            && (!w.broken ==> |w.wire| <= |w.sealed| && forall j :: 0 <= j < |w.wire| ==> w.wire[j] == j)
            && (forall i :: 0 <= i < |calls| ==> HasBlock(calls, w, i))
            && (forall i :: 0 <= i < |calls| && calls[i].WriteCall? && w.pcs[i].Finished? && w.pcs[i].ok ==>
                  w.pcs[i].count == |Chunks(calls[i].data)|)
            && Alerts(w.sealed) <= 1
  {
    StartKeeps(calls);
    RunKeeps(calls, Start(|calls|), schedule);
    var w := RunSchedule(calls, Start(|calls|), schedule);
    hide RunSchedule;
    hide Start;
    Guarantees(calls, w);
  }

  lemma Guarantees(calls: seq<Call>, w: World)
    requires Inv(calls, w)
    ensures |w.pcs| == |calls| && Alerts(w.sealed) <= 1
    ensures !w.broken ==> |w.wire| <= |w.sealed| && forall j :: 0 <= j < |w.wire| ==> w.wire[j] == j
    ensures forall i :: 0 <= i < |calls| ==> HasBlock(calls, w, i)
    ensures forall i :: 0 <= i < |calls| && calls[i].WriteCall? && w.pcs[i].Finished? && w.pcs[i].ok ==>
              w.pcs[i].count == |Chunks(calls[i].data)|
  {
    if w.closer.Some? {
      assert CallInv(calls, w.closer.value, w.pcs[w.closer.value], w.closer);
    }
    hide Alerts;
    forall i | 0 <= i < |calls|
      ensures HasBlock(calls, w, i)
      ensures calls[i].WriteCall? && w.pcs[i].Finished? && w.pcs[i].ok ==> w.pcs[i].count == |Chunks(calls[i].data)|
    {
      assert CallInv(calls, i, w.pcs[i], w.closer);
      OneBlock(calls, w, i);
    }
  }

  lemma OneBlock(calls: seq<Call>, w: World, i: nat)
    requires LockInv(calls, w.pcs, w.holder, w.order) && SealedInv(calls, w.pcs, w.closer, w.order, w.sealed)
    requires i < |calls|
    ensures HasBlock(calls, w, i)
  {
    hide Serial;
    hide Records;
    hide Alerts;
    if i in w.order {
      var start := BlockInSerial(calls, w.pcs, w.order, i);
      assert Contiguous(calls, w, i, start);
    } else {
      assert Contiguous(calls, w, i, 0);
    }
  }

  function Payloads(rs: seq<Rec>): bytes {
    if rs == [] then [] else rs[0].payload + Payloads(rs[1..])
  }

  /** The records of one Write spell out its argument. */
  lemma RecordsSpellOut(calls: seq<Call>, i: nat)
    requires i < |calls| && calls[i].WriteCall?
    ensures |Records(calls, i)| == |Chunks(calls[i].data)|
    ensures Payloads(Records(calls, i)) == calls[i].data
  {
    ChunksSpell(i, calls[i].data, Records(calls, i));
  }

  lemma {:induction false} ChunksSpell(i: nat, data: bytes, rs: seq<Rec>)
    requires var cs := Chunks(data);
             |rs| == |cs| && forall k :: 0 <= k < |rs| ==> rs[k] == Rec(i, APPLICATION_DATA, cs[k])
    ensures Payloads(rs) == data
    decreases |data|
  {
    if data != [] {
      var n := if |data| > MAX_PLAINTEXT then MAX_PLAINTEXT else |data|;
      ChunksHead(data, n);
      ChunksSpell(i, data[n..], rs[1..]);
      assert data == data[..n] + data[n..];
    }
  }

  // What has reached the wire ------------------------------------------------------------------

  /** A sealed record that is not on the wire is in flight, or its call has failed or is closing. */
  predicate Excused(calls: seq<Call>, w: World, j: nat)
    requires j < |w.sealed| && |calls| == |w.pcs|
  {
    var i := w.sealed[j].call;
    && i < |calls|
    && var pc := w.pcs[i];
       || (pc.InFlight? && j == |w.sealed| - 1)
       || (pc.RawClosing? && calls[i].CloseCall?)
       || (pc.Finished? && (calls[i].CloseCall? || !pc.ok))
  }

  /** Application data, or the close_notify alert. */
  predicate DataOrNotify(r: Rec) {
    r.contentType == APPLICATION_DATA || (r.contentType == ALERT && r.payload == [1, 0])
  }

  ghost predicate WrittenInv(calls: seq<Call>, w: World) {
    && |calls| == |w.pcs|
    && (forall j :: 0 <= j < |w.sealed| && j !in w.wire ==> Excused(calls, w, j))
    && (forall j :: 0 <= j < |w.sealed| ==> DataOrNotify(w.sealed[j]))
  }

  lemma RecordsOwn(calls: seq<Call>, i: nat)
    requires i < |calls|
    ensures forall k :: 0 <= k < |Records(calls, i)| ==>
              Records(calls, i)[k].call == i && DataOrNotify(Records(calls, i)[k])
  {
  }

  predicate Holders(calls: seq<Call>, w: World) {
    |w.pcs| == |calls| && forall k :: 0 <= k < |calls| ==> (Holding(w.pcs[k]) <==> w.holder == Some(k))
  }

  lemma ExcusedStays(calls: seq<Call>, w: World, i: nat, ok: bool, j: nat)
    requires Holders(calls, w) && i < |calls| && Step(calls, w, i, ok).Some?
    requires j < |w.sealed| && (j in w.wire || Excused(calls, w, j))
    ensures var w' := Step(calls, w, i, ok).value;
            && j < |w'.sealed| && |w'.pcs| == |calls| && (j in w'.wire || Excused(calls, w', j))
            && w'.sealed[j] == w.sealed[j]
  {
    hide Records;
  }

  lemma NewIsExcused(calls: seq<Call>, w: World, i: nat, ok: bool)
    requires Holders(calls, w) && i < |calls| && Step(calls, w, i, ok).Some?
    ensures var w' := Step(calls, w, i, ok).value;
            |w'.pcs| == |calls| && |w.sealed| <= |w'.sealed| <= |w.sealed| + 1
            && (|w'.sealed| > |w.sealed| ==> Excused(calls, w', |w.sealed|) && DataOrNotify(w'.sealed[|w.sealed|]))
  {
    RecordsOwn(calls, i);
    hide Records;
  }

  lemma StepKeepsWritten(calls: seq<Call>, w: World, i: nat, ok: bool)
    requires WrittenInv(calls, w) && i < |calls| == |w.pcs| && Step(calls, w, i, ok).Some? && Holders(calls, w)
    ensures WrittenInv(calls, Step(calls, w, i, ok).value)
  {
    hide Step;
    hide Excused;
    hide Holders;
    hide DataOrNotify;
    var w' := Step(calls, w, i, ok).value;
    NewIsExcused(calls, w, i, ok);
    forall j | 0 <= j < |w'.sealed| ensures j in w'.wire || Excused(calls, w', j) ensures DataOrNotify(w'.sealed[j]) {
      if j < |w.sealed| {
        ExcusedStays(calls, w, i, ok, j);
      }
    }
  }

  lemma LockHolders(calls: seq<Call>, w: World)
    requires LockInv(calls, w.pcs, w.holder, w.order)
    ensures Holders(calls, w) && |w.pcs| == |calls|
  {
    hide Holding;
  }

  lemma {:induction false} RunKeepsWritten(calls: seq<Call>, w: World, schedule: seq<(nat, bool)>)
    requires Inv(calls, w) && WrittenInv(calls, w)
    ensures WrittenInv(calls, RunSchedule(calls, w, schedule))
    decreases |schedule|
  {
    hide LockInv;
    hide CallsInv;
    hide SealedInv;
    hide WireInv;
    hide WrittenInv;
    hide Step;
    if schedule != [] {
      var (i, ok) := schedule[0];
      LockHolders(calls, w);
      if i < |calls| && Step(calls, w, i, ok).Some? {
        StepKeepsWritten(calls, w, i, ok);
        StepKeeps(calls, w, i, ok);
        RunKeepsWritten(calls, Step(calls, w, i, ok).value, schedule[1..]);
      } else {
        RunKeepsWritten(calls, w, schedule[1..]);
      }
    }
  }

  /** Once the raw connection is closed nothing more reaches the wire. */
  lemma {:induction false} NothingAfterRawClose(calls: seq<Call>, w: World, schedule: seq<(nat, bool)>)
    requires |w.pcs| == |calls| && w.rawClosed
    ensures RunSchedule(calls, w, schedule).wire == w.wire && RunSchedule(calls, w, schedule).rawClosed
    decreases |schedule|
  {
    hide Records;
    if schedule != [] {
      var (i, ok) := schedule[0];
      if i < |calls| && Step(calls, w, i, ok).Some? {
        RawCloseStays(calls, w, i, ok);
        hide Step;
        NothingAfterRawClose(calls, Step(calls, w, i, ok).value, schedule[1..]);
      } else {
        NothingAfterRawClose(calls, w, schedule[1..]);
      }
    }
  }

  lemma RawCloseStays(calls: seq<Call>, w: World, i: nat, ok: bool)
    requires i < |calls| == |w.pcs| && Step(calls, w, i, ok).Some? && w.rawClosed
    ensures var w' := Step(calls, w, i, ok).value; w'.wire == w.wire && w'.rawClosed && |w'.pcs| == |calls|
  {
    hide Records;
  }

  /** A Close that has returned left the raw connection closed, also if it only waited for another. */
  ghost predicate ClosedInv(calls: seq<Call>, w: World) {
    |w.pcs| == |calls|
    && forall i :: 0 <= i < |calls| && calls[i].CloseCall? && w.pcs[i].Finished? ==> w.rawClosed
  }

  lemma StepKeepsClosed(calls: seq<Call>, w: World, i: nat, ok: bool)
    requires CallsInv(calls, w.pcs, w.closer) && ClosedInv(calls, w)
    requires i < |calls| && Step(calls, w, i, ok).Some?
    ensures ClosedInv(calls, Step(calls, w, i, ok).value)
  {
    assert CallInv(calls, i, w.pcs[i], w.closer);
  }

  lemma {:induction false} CloseClosesRaw(calls: seq<Call>, w: World, schedule: seq<(nat, bool)>)
    requires Inv(calls, w) && ClosedInv(calls, w)
    ensures ClosedInv(calls, RunSchedule(calls, w, schedule))
    decreases |schedule|
  {
    hide LockInv;
    hide CallsInv;
    hide SealedInv;
    hide WireInv;
    hide Step;
    if schedule != [] {
      var (i, ok) := schedule[0];
      if i < |calls| && Step(calls, w, i, ok).Some? {
        StepKeepsClosed(calls, w, i, ok);
        StepKeeps(calls, w, i, ok);
        CloseClosesRaw(calls, Step(calls, w, i, ok).value, schedule[1..]);
      } else {
        CloseClosesRaw(calls, w, schedule[1..]);
      }
    }
  }

  /** In every interleaving a Close returns only once the raw connection is closed. */
  lemma CloseReturnsClosed(calls: seq<Call>, schedule: seq<(nat, bool)>, i: nat)
    requires i < |calls| && calls[i].CloseCall?
    ensures var w := RunSchedule(calls, Start(|calls|), schedule); w.pcs[i].Finished? ==> w.rawClosed
  {
    StartKeeps(calls);
    CloseClosesRaw(calls, Start(|calls|), schedule);
    hide RunSchedule;
  }

  /**
   A Write that returned without error has its whole argument in one stretch of the sealed order,
   and every record of it on the wire.
   */
  lemma WriteArrivesWhole(calls: seq<Call>, schedule: seq<(nat, bool)>, i: nat) returns (start: nat)
    requires i < |calls| && calls[i].WriteCall?
    requires var pc := RunSchedule(calls, Start(|calls|), schedule).pcs[i]; pc.Finished? && pc.ok
    ensures var w := RunSchedule(calls, Start(|calls|), schedule);
            var n := |Chunks(calls[i].data)|;
            && start + n <= |w.sealed| && Payloads(w.sealed[start..start + n]) == calls[i].data
            && forall j :: start <= j < start + n ==> j in w.wire
  {
    hide RunSchedule;
    hide Payloads;
    hide Chunks;
    ConcurrentWriters(calls, schedule);
    StartKeeps(calls);
    RunKeepsWritten(calls, Start(|calls|), schedule);
    var w := RunSchedule(calls, Start(|calls|), schedule);
    assert HasBlock(calls, w, i);
    start :| Contiguous(calls, w, i, start);
    BlockSpellsOut(calls, w, i, start);
    BlockIsWritten(calls, w, i, start);
  }

  /** Nothing but application data and close_notify is ever sealed. */
  lemma SealsDataOrNotify(calls: seq<Call>, schedule: seq<(nat, bool)>)
    ensures var w := RunSchedule(calls, Start(|calls|), schedule);
            forall j :: 0 <= j < |w.sealed| ==>
              w.sealed[j].contentType == APPLICATION_DATA
              || (w.sealed[j].contentType == ALERT && w.sealed[j].payload == [1, 0])
  {
    StartKeeps(calls);
    RunKeepsWritten(calls, Start(|calls|), schedule);
    hide RunSchedule;
    var w := RunSchedule(calls, Start(|calls|), schedule);
    assert forall j :: 0 <= j < |w.sealed| ==> DataOrNotify(w.sealed[j]);
  }

  /** While nothing has failed: no call closes, and every Write that is over ended well or ran out of numbers. */
  ghost predicate Unharmed(calls: seq<Call>, w: World) {
    && |w.pcs| == |calls| && !w.broken && !w.rawClosed
    && forall i :: 0 <= i < |calls| ==>
         && calls[i].WriteCall? && !w.pcs[i].RawClosing?
         && (w.pcs[i].InFlight? ==> w.sealed != [])
         && (w.pcs[i].Finished? ==> w.pcs[i].ok || |w.sealed| >= MAX_SEQ)
  }

  lemma UnharmedStep(calls: seq<Call>, w: World, i: nat)
    requires Unharmed(calls, w) && i < |calls| && Step(calls, w, i, true).Some?
    ensures Unharmed(calls, Step(calls, w, i, true).value)
  {
    hide Records;
    assert calls[i].WriteCall?;
  }

  /** Without Close and without a failing raw write, a Write fails only when the sequence numbers are used up. */
  lemma {:induction false} WritesSucceed(calls: seq<Call>, w: World, schedule: seq<(nat, bool)>)
    requires Unharmed(calls, w) && forall k :: 0 <= k < |schedule| ==> schedule[k].1
    ensures Unharmed(calls, RunSchedule(calls, w, schedule))
    decreases |schedule|
  {
    hide Step;
    if schedule != [] {
      var (i, ok) := schedule[0];
      assert schedule[0].1;
      assert forall k :: 0 <= k < |schedule| - 1 ==> schedule[1..][k] == schedule[k + 1];
      if i < |calls| && Step(calls, w, i, ok).Some? {
        UnharmedStep(calls, w, i);
        hide Unharmed;
        WritesSucceed(calls, Step(calls, w, i, ok).value, schedule[1..]);
      } else {
        WritesSucceed(calls, w, schedule[1..]);
      }
    }
  }

  /** As long as some call is not over, some call can go on. */
  lemma NeverStuck(calls: seq<Call>, w: World, i: nat) returns (j: nat)
    requires LockInv(calls, w.pcs, w.holder, w.order) && CallsInv(calls, w.pcs, w.closer)
    requires i < |calls| && !w.pcs[i].Finished?
    ensures j < |calls| && forall ok :: Step(calls, w, j, ok).Some?
  {
    hide Records;
    assert CallInv(calls, i, w.pcs[i], w.closer);
    j := if w.pcs[i].Ready? && calls[i].CloseCall? && w.closer.Some? then w.closer.value else i;
    if w.holder.Some? {
      j := w.holder.value;
    }
    if w.closer.Some? && w.holder.None? {
      assert CallInv(calls, w.closer.value, w.pcs[w.closer.value], w.closer);
      if w.pcs[w.closer.value].Finished? {
        j := i;
      }
    }
  }

  lemma BlockIsWritten(calls: seq<Call>, w: World, i: nat, start: nat)
    requires WrittenInv(calls, w) && i < |calls| && calls[i].WriteCall? && Contiguous(calls, w, i, start)
    requires w.pcs[i].Finished? && w.pcs[i].ok && w.pcs[i].count == |Chunks(calls[i].data)|
    ensures var n := |Chunks(calls[i].data)|;
            start + n <= |w.sealed| && forall j :: start <= j < start + n ==> j in w.wire
  {
    RecordsSpellOut(calls, i);
    RecordsOwn(calls, i);
    hide Records;
    hide Payloads;
    hide Chunks;
    var block := Take(Records(calls, i), w.pcs[i].count);
    assert block == Records(calls, i);
    forall j | start <= j < start + |block| ensures j in w.wire {
      assert w.sealed[j] == w.sealed[start..start + |block|][j - start] == block[j - start];
      assert !Excused(calls, w, j);
    }
  }

  lemma BlockSpellsOut(calls: seq<Call>, w: World, i: nat, start: nat)
    requires i < |calls| == |w.pcs| && calls[i].WriteCall? && Contiguous(calls, w, i, start)
    requires CountOf(w.pcs[i]) == |Chunks(calls[i].data)|
    ensures var n := |Chunks(calls[i].data)|;
            start + n <= |w.sealed| && Payloads(w.sealed[start..start + n]) == calls[i].data
  {
    hide Payloads;
    hide Records;
    hide Chunks;
    RecordsSpellOut(calls, i);
    assert Take(Records(calls, i), CountOf(w.pcs[i])) == Records(calls, i);
  }
}
