/** The deadline of a dialled connection: the dialling goroutine against its cancellation watcher. */
module Dial {

  datatype Deadline = NoDeadline | HandshakeDeadline | Expired

  datatype Main =
    | Connected             // raw connection up, no deadline yet
    | Watched               // deadline set, watcher started, handshake running
    | Closing               // handshake over, about to close ctxDone
    | Waiting               // for watcherDone
    | Joined
    | Abandoned             // handshake failed, connection closed
    | ReturnedConn
    | ReturnedError(cancelled: bool)

  datatype Watcher = NotStarted | Selecting | Expiring | Stopped

  datatype World = World(
    main: Main,
    watcher: Watcher,
    cancelled: bool,
    ctxDone: bool,
    handshakeOk: bool,
    deadline: Deadline,
    closed: bool
  )

  const START := World(Connected, NotStarted, false, false, false, NoDeadline, false)

  datatype Actor = MainActs(ok: bool) | WatcherActs(seesCancel: bool) | CallerCancels

  function Step(w: World, a: Actor): World {
    match a
    case CallerCancels => w.(cancelled := true)
    case WatcherActs(seesCancel) =>
      (match w.watcher
       case Selecting =>
         if w.cancelled && (seesCancel || !w.ctxDone) then w.(watcher := Expiring)
         else if w.ctxDone then w.(watcher := Stopped)
         else w
       case Expiring => w.(watcher := Stopped, deadline := Expired)
       case _ => w)
    case MainActs(ok) =>
      match w.main
      case Connected => w.(main := Watched, watcher := Selecting, deadline := HandshakeDeadline)
      case Watched => w.(main := Closing, handshakeOk := ok)
      case Closing => w.(main := Waiting, ctxDone := true)
      case Waiting => if w.watcher == Stopped then w.(main := Joined) else w
      case Joined =>
        if w.handshakeOk then w.(main := ReturnedConn, deadline := NoDeadline)
        else w.(main := Abandoned, closed := true)
      case Abandoned => w.(main := ReturnedError(w.cancelled))
      case ReturnedConn => w
      case ReturnedError(_) => w
  }

  function Run(w: World, actors: seq<Actor>): World
    decreases |actors|
  {
    if actors == [] then w else Run(Step(w, actors[0]), actors[1..])
  }

  predicate Returned(m: Main) {
    m.ReturnedConn? || m.ReturnedError?
  }

  predicate Inv(w: World) {
    && (w.main == Connected <==> w.watcher == NotStarted)
    && (w.main == Joined || w.main == Abandoned || Returned(w.main) ==> w.watcher == Stopped)
    && (w.main == Connected || w.main == Watched || w.main == Closing <==> !w.ctxDone)
    && (!w.ctxDone && w.watcher == Stopped ==> w.deadline == Expired)
    && (w.closed <==> w.main == Abandoned || w.main.ReturnedError?)
    && (w.closed ==> !w.handshakeOk)
    && (w.main == ReturnedConn ==> w.deadline == NoDeadline && w.handshakeOk)
    && (w.main.ReturnedError? && w.main.cancelled ==> w.cancelled)
  }

  lemma {:induction false} RunKeeps(w: World, actors: seq<Actor>)
    requires Inv(w)
    ensures Inv(Run(w, actors))
    decreases |actors|
  {
    if actors != [] {
      RunKeeps(Step(w, actors[0]), actors[1..]);
    }
  }

  /**
   A connection handed back to the caller has completed its handshake, is open and has no
   deadline, then or later, however a cancellation races; an error means that the handshake
   failed and the connection is closed, and only blames a cancellation that happened. By then
   the watcher is gone.
   */
  lemma NoDeadlineAfterDial(actors: seq<Actor>)
    ensures var w := Run(START, actors);
            && (w.main == ReturnedConn ==> w.deadline == NoDeadline && w.handshakeOk && !w.closed)
            && (w.main.ReturnedError? ==> !w.handshakeOk && w.closed && (w.main.cancelled ==> w.cancelled))
            && (Returned(w.main) ==> w.watcher == Stopped)
  {
    RunKeeps(START, actors);
  }

  /** A cancellation during the handshake is felt: two actions of the watcher at most expire the deadline. */
  lemma CancelExpires(actors: seq<Actor>, a: bool, b: bool)
    requires Run(START, actors).main == Watched && Run(START, actors).cancelled
    ensures Step(Step(Run(START, actors), WatcherActs(a)), WatcherActs(b)).deadline == Expired
  {
    RunKeeps(START, actors);
  }

  /** How many more actions of each a dial takes at most. */
  function Rest(w: World): nat {
    (match w.main
     case Connected => 7 case Watched => 6 case Closing => 5 case Waiting => 4
     case Joined => 2 case Abandoned => 1 case _ => 0)
    + (match w.watcher case NotStarted => 2 case Selecting => 2 case Expiring => 1 case Stopped => 0)
  }

  /**
   A dial never gets stuck: from every reachable state some actions, no cancellation needed, end
   it, with a connection exactly if the handshake succeeds.
   */
  lemma {:induction false} DialReturns(w: World, ok: bool) returns (actors: seq<Actor>)
    requires Inv(w)
    ensures Returned(Run(w, actors).main) && |actors| <= Rest(w)
    ensures w.main == Connected || w.main == Watched ==> (Run(w, actors).main == ReturnedConn <==> ok)
    ensures w.main != Connected && w.main != Watched && !Returned(w.main) ==>
              (Run(w, actors).main == ReturnedConn <==> w.handshakeOk)
    decreases Rest(w)
  {
    if Returned(w.main) {
      actors := [];
    } else {
      var a := if w.main == Waiting && w.watcher != Stopped then WatcherActs(true) else MainActs(ok);
      var rest := DialReturns(Step(w, a), ok);
      actors := [a] + rest;
    }
  }
}
