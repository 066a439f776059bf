/**
 The certificate cache shared by concurrent handshakes, interleaved at every lock operation,
 clock reading and field access. Certificates and keys are named by the generation that made
 them; generation 0 stands for an empty field. Times are seconds on a monotone clock.
 */
module Cache {
  import opened Bytes

  const MINUTE := 60
  const HOUR := 3600

  /** Where a caller is; `writing` tells which of the two passes it is on. */
  datatype Pc =
    | Calling
    | Holding(writing: bool)               // lock just taken
    | TtlPassed(writing: bool, first: int) // cached, within TTL, expiry known; second clock reading next
    | CopyingCert(writing: bool, hit: Hit)
    | CopyingKey(writing: bool, hit: Hit, cert: nat)
    | WantsWrite
    | Generating
    | SettingCert(g: nat, expiry: int) | SettingKey(g: nat, expiry: int)
    | SettingAt(g: nat, expiry: int) | SettingExpiry(g: nat, expiry: int)
    | Returned(cert: nat, key: nat, from: Option<Hit>)   // None for what this call generated
    | Configured                           // returned the configured certificate and key
    | Failed

  /** History: the two clock readings a cached certificate was checked with. */
  datatype Hit = Hit(first: int, second: int)

  /** Whether certificate and key are configured, whether there is an evidence provider, and the TTL. */
  datatype Setup = Setup(configured: bool, provider: bool, ttl: int)

  /** History: a generation that was stored, when, and until when it is valid. */
  datatype Made = Made(g: nat, at: int, expiry: int)

  datatype World = World(
    setup: Setup,
    pcs: seq<Pc>,
    readers: set<nat>,
    writer: Option<nat>,
    cert: nat,
    key: nat,
    at: int,
    notAfter: int,        // 0 when unset
    now: int,             // the latest clock reading
    generations: nat,
    made: seq<Made>
  )

  /** The outcome of generating a certificate and parsing it back: an expiry time, or failure. */
  datatype Choice = Choice(now: int, expiry: Option<int>)

  /** The cache is of use: nothing is configured and something can be generated. */
  predicate Caches(setup: Setup) {
    !setup.configured && setup.provider
  }

  /** How long a certificate may be served; an hour unless configured. */
  function Ttl(setup: Setup): (ttl: int)
    ensures ttl > 0
  {
    if setup.ttl <= 0 then HOUR else setup.ttl
  }

  function Start(setup: Setup, n: nat, now: int): World {
    World(setup, seq(n, _ => Calling), {}, None, 0, 0, 0, 0, now, 0, [])
  }

  function Step(w: World, i: nat, c: Choice): World
    requires i < |w.pcs|
  {
    var w1 := w.(now := if c.now > w.now then c.now else w.now);
    match w.pcs[i]
    case Calling =>
      if w.setup.configured then Goto(w, i, Configured)
      else if !w.setup.provider then Goto(w, i, Failed)
      else if w.writer.Some? then w
      else Goto(w, i, Holding(false)).(readers := w.readers + {i})
    case Holding(writing) =>
      if w.cert != 0 && w.key != 0 && w1.now - w.at < Ttl(w.setup) && w.notAfter != 0
      then Goto(w1, i, TtlPassed(writing, w1.now)) else Stale(w1, i, writing)
    case TtlPassed(writing, first) =>
      if w1.now + MINUTE < w.notAfter then Goto(w1, i, CopyingCert(writing, Hit(first, w1.now)))
      else Stale(w1, i, writing)
    case CopyingCert(writing, hit) => Goto(w, i, CopyingKey(writing, hit, w.cert))
    case CopyingKey(writing, hit, cert) => Unlock(Goto(w, i, Returned(cert, w.key, Some(hit))), i)
    case WantsWrite =>
      if w.writer.Some? || w.readers != {} then w else Goto(w, i, Holding(true)).(writer := Some(i))
    case Generating =>
      if c.expiry.None? then Unlock(Goto(w, i, Failed), i)
      else Goto(w, i, SettingCert(w.generations + 1, c.expiry.value)).(generations := w.generations + 1)
    case SettingCert(g, e) => Goto(w, i, SettingKey(g, e)).(cert := g)
    case SettingKey(g, e) => Goto(w, i, SettingAt(g, e)).(key := g)
    case SettingAt(g, e) => Goto(w1, i, SettingExpiry(g, e)).(at := w1.now, made := w.made + [Made(g, w1.now, e)])
    case SettingExpiry(g, e) => Unlock(Goto(w, i, Returned(g, g, None)), i).(notAfter := e)
    case Returned(_, _, _) => w
    case Configured => w
    case Failed => w
  }

  function Goto(w: World, i: nat, pc: Pc): World
    requires i < |w.pcs|
  {
    w.(pcs := w.pcs[i := pc])
  }

  /** Not usable: a reader lets go and queues for the write lock, the writer generates. */
  function Stale(w: World, i: nat, writing: bool): World
    requires i < |w.pcs|
  {
    if writing then Goto(w, i, Generating) else Unlock(Goto(w, i, WantsWrite), i)
  }

  function Unlock(w: World, i: nat): World {
    w.(readers := w.readers - {i}, writer := if w.writer == Some(i) then None else w.writer)
  }

  function RunSchedule(w: World, schedule: seq<(nat, Choice)>): World
    decreases |schedule|
  {
    if schedule == [] then w
    else
      var (i, c) := schedule[0];
      RunSchedule(if i < |w.pcs| then Step(w, i, c) else w, schedule[1..])
  }

  /** The stored certificate is within its TTL and more than a minute from expiry. */
  predicate Usable(w: World, now: int) {
    w.cert != 0 && w.key != 0 && now - w.at < Ttl(w.setup) && w.notAfter != 0 && now + MINUTE < w.notAfter
  }

  predicate Reads(pc: Pc) {
    (pc.Holding? || pc.TtlPassed? || pc.CopyingCert? || pc.CopyingKey?) && !pc.writing
  }

  predicate Writes(pc: Pc) {
    || ((pc.Holding? || pc.TtlPassed? || pc.CopyingCert? || pc.CopyingKey?) && pc.writing)
    || pc.Generating? || Stores(pc)
  }

  predicate Stores(pc: Pc) {
    pc.SettingCert? || pc.SettingKey? || pc.SettingAt? || pc.SettingExpiry?
  }

  ghost predicate CallerInv(w: World, i: nat)
    requires i < |w.pcs|
  {
    var pc := w.pcs[i];
    && (!Caches(w.setup) ==> pc.Calling? || pc == if w.setup.configured then Configured else Failed)
    && (Caches(w.setup) ==> !pc.Configured?)
    && (Reads(pc) <==> i in w.readers)
    && (Writes(pc) <==> w.writer == Some(i))
    && (pc.TtlPassed? || pc.CopyingCert? || pc.CopyingKey? ==> w.cert != 0)
    && (pc.CopyingKey? ==> pc.cert == w.cert)
    && (pc.Generating? ==> !Usable(w, w.now))
    && (Stores(pc) ==> pc.g != 0)
    && (pc.SettingKey? ==> w.cert == pc.g)
    && (pc.SettingAt? || pc.SettingExpiry? ==> w.cert == pc.g && w.key == pc.g)
    && (pc.Returned? ==> pc.cert == pc.key != 0)
  }

  ghost predicate Inv(w: World) {
    (forall i :: 0 <= i < |w.pcs| ==> CallerInv(w, i)) && SharedInv(w)
  }

  ghost predicate SharedInv(w: World) {
    && (!Caches(w.setup) ==> w.generations == 0)
    && (forall i :: i in w.readers ==> i < |w.pcs|)
    && (w.writer.Some? ==> w.writer.value < |w.pcs| && w.readers == {})
    && (w.cert != w.key ==> w.writer.Some? && w.pcs[w.writer.value].SettingKey?)
  }

  lemma StepKeepsShared(w: World, i: nat, c: Choice)
    requires i < |w.pcs| && CallerInv(w, i) && SharedInv(w)
    ensures SharedInv(Step(w, i, c)) && |Step(w, i, c).pcs| == |w.pcs|
  {
    hide Usable;
  }

  lemma GeneratesWhenDue(w: World, i: nat, c: Choice)
    requires i < |w.pcs| && CallerInv(w, i)
    ensures Step(w, i, c).pcs[i].Generating? ==> !Usable(Step(w, i, c), Step(w, i, c).now)
  {
  }

  lemma StepKeepsOwn(w: World, i: nat, c: Choice)
    requires i < |w.pcs| && CallerInv(w, i) && SharedInv(w)
    ensures CallerInv(Step(w, i, c), i)
  {
    hide Usable;
    GeneratesWhenDue(w, i, c);
  }

  lemma StepKeepsOther(w: World, i: nat, c: Choice, j: nat)
    requires i < |w.pcs| && j < |w.pcs| && i != j
    requires SharedInv(w) && CallerInv(w, i) && CallerInv(w, j)
    ensures CallerInv(Step(w, i, c), j)
  {
  }

  lemma StepKeeps(w: World, i: nat, c: Choice)
    requires Inv(w) && i < |w.pcs|
    ensures Inv(Step(w, i, c))
    ensures |Step(w, i, c).pcs| == |w.pcs|
  {
    hide CallerInv;
    hide SharedInv;
    hide Step;
    StepKeepsShared(w, i, c);
    StepKeepsOwn(w, i, c);
    forall j | 0 <= j < |w.pcs| && j != i ensures CallerInv(Step(w, i, c), j) {
      StepKeepsOther(w, i, c, j);
    }
  }

  lemma {:induction false} RunKeeps(w: World, schedule: seq<(nat, Choice)>)
    requires Inv(w)
    ensures Inv(RunSchedule(w, schedule))
    ensures |RunSchedule(w, schedule).pcs| == |w.pcs|
    decreases |schedule|
  {
    if schedule != [] {
      var (i, c) := schedule[0];
      if i < |w.pcs| {
        StepKeeps(w, i, c);
      }
      RunKeeps(if i < |w.pcs| then Step(w, i, c) else w, schedule[1..]);
    }
  }

  lemma {:induction false} SetupStays(w: World, schedule: seq<(nat, Choice)>)
    ensures RunSchedule(w, schedule).setup == w.setup
    decreases |schedule|
  {
    if schedule != [] {
      var (i, c) := schedule[0];
      SetupStays(if i < |w.pcs| then Step(w, i, c) else w, schedule[1..]);
    }
  }

  /**
   Over every interleaving: a returned certificate and key come from one generation, and a
   caller is generating only while the stored certificate is not usable. With a certificate
   configured every caller gets that one, without it and without a provider every caller fails,
   and in neither case is anything generated.
   */
  lemma CacheDiscipline(setup: Setup, callers: nat, start: int, schedule: seq<(nat, Choice)>)
    ensures var w := RunSchedule(Start(setup, callers, start), schedule);
            && |w.pcs| == callers
            && (forall i :: 0 <= i < callers && w.pcs[i].Returned? ==> w.pcs[i].cert == w.pcs[i].key != 0)
            && (forall i :: 0 <= i < callers && w.pcs[i].Generating? ==> !Usable(w, w.now))
            && (forall i, j :: 0 <= i < j < callers ==> !(w.pcs[i].Generating? && w.pcs[j].Generating?))
            && (forall i :: 0 <= i < callers && w.pcs[i].Configured? ==> setup.configured)
            && (!Caches(setup) ==> w.generations == 0 && forall i :: 0 <= i < callers ==>
                  w.pcs[i].Calling? || w.pcs[i] == if setup.configured then Configured else Failed)
  {
    hide RunSchedule;
    RunKeeps(Start(setup, callers, start), schedule);
    SetupStays(Start(setup, callers, start), schedule);
    var w := RunSchedule(Start(setup, callers, start), schedule);
    forall i | 0 <= i < callers
      ensures w.pcs[i].Returned? ==> w.pcs[i].cert == w.pcs[i].key != 0
      ensures w.pcs[i].Generating? ==> !Usable(w, w.now) && w.writer == Some(i)
      ensures w.pcs[i].Configured? ==> setup.configured
      ensures !Caches(setup) ==> w.pcs[i].Calling? || w.pcs[i] == if setup.configured then Configured else Failed
    {
      assert CallerInv(w, i);
    }
  }

  // What a hit returns ----------------------------------------------------------------------------

  /** Both checks on a cached certificate, on the readings they were made with. */
  predicate Fresh(m: Made, hit: Hit, ttl: int) {
    hit.first - m.at < ttl && hit.second + MINUTE < m.expiry
  }

  function Last(made: seq<Made>): Made
    requires made != []
  {
    made[|made| - 1]
  }

  /** Some of the four fields are new and some are old. */
  predicate Midway(pc: Pc) {
    pc.SettingKey? || pc.SettingAt? || pc.SettingExpiry?
  }

  predicate Replacing(w: World) {
    w.writer.Some? && w.writer.value < |w.pcs| && Midway(w.pcs[w.writer.value])
  }

  /** The fields hold what was stored last, unless it is being replaced. */
  ghost predicate StoredInv(w: World) {
    && w.cert <= w.generations
    && (if Replacing(w) then
          var pc := w.pcs[w.writer.value];
          pc.SettingExpiry? ==> w.made != [] && Last(w.made) == Made(pc.g, w.at, pc.expiry)
        else if w.made == [] then w.cert == 0
        else w.cert != 0 && Last(w.made) == Made(w.cert, w.at, w.notAfter))
  }

  /** A caller on its way to a cached certificate has checked the one stored last. */
  ghost predicate HitInv(w: World, i: nat)
    requires i < |w.pcs|
  {
    var pc, ttl := w.pcs[i], Ttl(w.setup);
    && (pc.TtlPassed? ==> w.made != [] && pc.first - Last(w.made).at < ttl)
    && (pc.CopyingCert? || pc.CopyingKey? ==> w.made != [] && Fresh(Last(w.made), pc.hit, ttl))
    && (pc.CopyingKey? ==> pc.cert == Last(w.made).g)
    && (pc.Returned? && pc.from.Some? ==> exists m :: m in w.made && m.g == pc.cert && Fresh(m, pc.from.value, ttl))
    && (Stores(pc) ==> pc.g <= w.generations)
    && (pc.SettingCert? ==> w.cert < pc.g)
  }

  ghost predicate FreshInv(w: World) {
    (forall i :: 0 <= i < |w.pcs| ==> HitInv(w, i)) && StoredInv(w)
  }

  lemma StepKeepsStored(w: World, i: nat, c: Choice)
    requires i < |w.pcs| && CallerInv(w, i) && SharedInv(w) && HitInv(w, i) && StoredInv(w)
    ensures StoredInv(Step(w, i, c))
  {
    hide Usable;
  }

  lemma StepKeepsHit(w: World, i: nat, c: Choice)
    requires i < |w.pcs| && CallerInv(w, i) && SharedInv(w) && HitInv(w, i) && StoredInv(w)
    ensures HitInv(Step(w, i, c), i)
  {
    hide Usable;
  }

  lemma StepKeepsOtherHit(w: World, i: nat, c: Choice, j: nat)
    requires i < |w.pcs| && j < |w.pcs| && i != j
    requires SharedInv(w) && CallerInv(w, i) && CallerInv(w, j) && HitInv(w, j)
    ensures HitInv(Step(w, i, c), j)
  {
    hide Usable;
  }

  lemma StepKeepsFresh(w: World, i: nat, c: Choice)
    requires Inv(w) && FreshInv(w) && i < |w.pcs|
    ensures FreshInv(Step(w, i, c))
  {
    hide CallerInv;
    hide SharedInv;
    hide HitInv;
    hide StoredInv;
    hide Step;
    StepKeeps(w, i, c);
    StepKeepsStored(w, i, c);
    StepKeepsHit(w, i, c);
    forall j | 0 <= j < |w.pcs| && j != i ensures HitInv(Step(w, i, c), j) {
      StepKeepsOtherHit(w, i, c, j);
    }
  }

  lemma {:induction false} RunKeepsFresh(w: World, schedule: seq<(nat, Choice)>)
    requires Inv(w) && FreshInv(w)
    ensures FreshInv(RunSchedule(w, schedule))
    decreases |schedule|
  {
    hide Inv;
    hide FreshInv;
    hide Step;
    if schedule != [] {
      var (i, c) := schedule[0];
      if i < |w.pcs| {
        StepKeeps(w, i, c);
        StepKeepsFresh(w, i, c);
      }
      RunKeepsFresh(if i < |w.pcs| then Step(w, i, c) else w, schedule[1..]);
    }
  }

  /**
   Over every interleaving: what a call returns from the cache is a generation that was stored,
   and on the clock readings of that very call it was within its TTL and more than a minute from
   expiry; and a generation is started only when the one stored last is past its TTL, within a
   minute of expiry or of no known expiry.
   */
  lemma HitsAreFresh(setup: Setup, callers: nat, start: int, schedule: seq<(nat, Choice)>)
    ensures var w := RunSchedule(Start(setup, callers, start), schedule);
            && |w.pcs| == callers
            && (forall i :: 0 <= i < callers && w.pcs[i].Returned? && w.pcs[i].from.Some? ==>
                  exists m :: m in w.made && m.g == w.pcs[i].cert == w.pcs[i].key
                              && Fresh(m, w.pcs[i].from.value, if setup.ttl > 0 then setup.ttl else 3600))
            && (forall i :: 0 <= i < callers && w.pcs[i].Generating? && w.made != [] ==>
                  var m := Last(w.made);
                  w.now - m.at >= Ttl(setup) || w.now + MINUTE >= m.expiry || m.expiry == 0)
  {
    hide RunSchedule;
    var w0 := Start(setup, callers, start);
    var w := RunSchedule(w0, schedule);
    assert Inv(w0) && FreshInv(w0);
    RunKeeps(w0, schedule);
    RunKeepsFresh(w0, schedule);
    SetupStays(w0, schedule);
    forall i | 0 <= i < callers
      ensures w.pcs[i].Returned? && w.pcs[i].from.Some? ==>
                exists m :: m in w.made && m.g == w.pcs[i].cert == w.pcs[i].key
                            && Fresh(m, w.pcs[i].from.value, Ttl(setup))
      ensures w.pcs[i].Generating? && w.made != [] ==>
                var m := Last(w.made);
                w.now - m.at >= Ttl(setup) || w.now + MINUTE >= m.expiry || m.expiry == 0
    {
      assert CallerInv(w, i) && HitInv(w, i);
    }
  }

  // A stale certificate is not served ----------------------------------------------------------------

  /** Since w nothing has been replaced, or what is stored now is newer. */
  ghost predicate Since(w: World, w': World) {
    && |w'.pcs| == |w.pcs| && w'.setup == w.setup && w'.now >= w.now && w'.cert >= w.cert
    && (w'.cert == w.cert ==>
          !Replacing(w') && w'.key == w.key && w'.at == w.at && w'.notAfter == w.notAfter)
  }

  /** A call that began at w is not on its way to what was stored then. */
  ghost predicate Passes(w: World, w': World, i: nat)
    requires i < |w'.pcs|
  {
    var pc := w'.pcs[i];
    && (pc.TtlPassed? ==> w'.cert > w.cert || w.now + MINUTE >= w.notAfter)
    && (pc.CopyingCert? ==> w'.cert > w.cert)
    && (pc.CopyingKey? ==> pc.cert > w.cert)
    && (Stores(pc) ==> pc.g > w.cert)
    && (pc.Returned? ==> pc.cert > w.cert)
  }

  lemma StepSince(w: World, w': World, j: nat, c: Choice)
    requires Since(w, w') && j < |w'.pcs| && CallerInv(w', j) && HitInv(w', j) && SharedInv(w')
    ensures Since(w, Step(w', j, c))
  {
    hide Usable;
  }

  lemma StepPassesOwn(w: World, w': World, i: nat, c: Choice)
    requires Since(w, w') && i < |w'.pcs| && Passes(w, w', i) && !Usable(w, w.now)
    requires StoredInv(w') && CallerInv(w', i) && HitInv(w', i)
    ensures Passes(w, Step(w', i, c), i)
  {
  }

  lemma StepPassesOther(w: World, w': World, i: nat, j: nat, c: Choice)
    requires Since(w, w') && i < |w'.pcs| && j < |w'.pcs| && i != j && Passes(w, w', i)
    requires Since(w, Step(w', j, c)) && HitInv(w', j)
    ensures Passes(w, Step(w', j, c), i)
  {
    hide Usable;
    hide Last;
  }

  lemma StepPasses(w: World, w': World, i: nat, j: nat, c: Choice)
    requires Since(w, w') && i < |w'.pcs| && j < |w'.pcs| && Passes(w, w', i) && !Usable(w, w.now)
    requires StoredInv(w') && SharedInv(w') && CallerInv(w', j) && HitInv(w', j)
    ensures Passes(w, Step(w', j, c), i)
  {
    hide *;
    StepSince(w, w', j, c);
    if i == j {
      StepPassesOwn(w, w', i, c);
    } else {
      StepPassesOther(w, w', i, j, c);
    }
  }

  lemma {:induction false} StaleRun(w: World, w': World, i: nat, schedule: seq<(nat, Choice)>)
    requires Inv(w') && FreshInv(w') && Since(w, w') && i < |w'.pcs| && Passes(w, w', i) && !Usable(w, w.now)
    ensures |RunSchedule(w', schedule).pcs| == |w'.pcs|
    ensures Passes(w, RunSchedule(w', schedule), i)
    decreases |schedule|
  {
    hide Since;
    hide Passes;
    hide CallerInv;
    hide SharedInv;
    hide HitInv;
    hide StoredInv;
    hide Usable;
    hide Step;
    if schedule != [] {
      var (j, c) := schedule[0];
      if j < |w'.pcs| {
        StepKeeps(w', j, c);
        StepKeepsFresh(w', j, c);
        StepSince(w, w', j, c);
        StepPasses(w, w', i, j, c);
        StaleRun(w, Step(w', j, c), i, schedule[1..]);
      } else {
        StaleRun(w, w', i, schedule[1..]);
      }
    }
  }

  /**
   From every reachable state in which nobody is storing and the stored certificate is past its
   TTL, within a minute of expiry or unset: a call that starts then and returns gives a newer
   generation, in every interleaving.
   */
  lemma StaleIsNotServed(setup: Setup, callers: nat, start: int, before: seq<(nat, Choice)>, i: nat,
      later: seq<(nat, Choice)>)
    requires var w := RunSchedule(Start(setup, callers, start), before);
             i < |w.pcs| && w.pcs[i].Calling? && w.writer == None && !Usable(w, w.now)
    ensures var w := RunSchedule(Start(setup, callers, start), before);
            var w' := RunSchedule(w, later);
            i < |w'.pcs| && (w'.pcs[i].Returned? ==> w'.pcs[i].cert == w'.pcs[i].key > w.cert)
  {
    hide RunSchedule;
    var w0 := Start(setup, callers, start);
    var w := RunSchedule(w0, before);
    assert Inv(w0) && FreshInv(w0);
    RunKeeps(w0, before);
    RunKeepsFresh(w0, before);
    RunKeeps(w, later);
    assert Since(w, w) && Passes(w, w, i);
    StaleRun(w, w, i, later);
    assert CallerInv(RunSchedule(w, later), i);
  }

  // Failure and progress -----------------------------------------------------------------------------

  ghost predicate Unfailed(w: World) {
    forall i :: 0 <= i < |w.pcs| ==> w.pcs[i] != Failed
  }

  lemma SucceedsStep(w: World, i: nat, c: Choice)
    requires Unfailed(w) && Caches(w.setup) && i < |w.pcs| && c.expiry.Some?
    ensures Unfailed(Step(w, i, c)) && Step(w, i, c).setup == w.setup
  {
    forall j | 0 <= j < |w.pcs| ensures Step(w, i, c).pcs[j] != Failed {
    }
  }

  /** With a provider, calls fail only when generating does. */
  lemma {:induction false} NobodyFails(w: World, schedule: seq<(nat, Choice)>)
    requires Unfailed(w) && Caches(w.setup)
    requires forall k :: 0 <= k < |schedule| ==> schedule[k].1.expiry.Some?
    ensures Unfailed(RunSchedule(w, schedule))
    decreases |schedule|
  {
    hide Unfailed;
    hide Step;
    if schedule != [] {
      var (i, c) := schedule[0];
      assert schedule[0].1.expiry.Some?;
      assert forall k :: 0 <= k < |schedule| - 1 ==> schedule[1..][k] == schedule[k + 1];
      if i < |w.pcs| {
        SucceedsStep(w, i, c);
      }
      NobodyFails(if i < |w.pcs| then Step(w, i, c) else w, schedule[1..]);
    }
  }

  predicate Settled(pc: Pc) {
    pc.Returned? || pc.Configured? || pc.Failed?
  }

  /** As long as some caller is not done, some caller can go on. */
  lemma NeverStuck(w: World, i: nat) returns (j: nat)
    requires Inv(w) && i < |w.pcs| && !Settled(w.pcs[i])
    ensures j < |w.pcs| && forall c :: Step(w, j, c) != w
  {
    assert CallerInv(w, i);
    j := i;
    if (w.pcs[i].Calling? || w.pcs[i].WantsWrite?) && w.writer.Some? {
      j := w.writer.value;
    } else if w.pcs[i].WantsWrite? && w.readers != {} {
      j :| j in w.readers;
    }
    assert CallerInv(w, j);
    forall c ensures Step(w, j, c).pcs[j] != w.pcs[j] {
    }
  }
}
