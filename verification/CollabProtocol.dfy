// The collab protocol: sessions that join, report to, leave and drop out of collabs, interleaved at
// every lock boundary.
module CollabProtocol {
  import opened Wrappers
  import opened Sorting
  import opened CollabState

  /** Where a session's handler is between two of its critical sections. */
  datatype Pc =
    | Idle
    | DropOld(collab: string, media: string)      // join: give up the previous guard
    | Authorize(collab: string, media: string)    // join: media file lookup and permission check
    | TakePin(collab: string, media: string)      // join: garbage was collected, pin map lock not yet taken
    | Push(collab: string, media: string)         // join: holds the pin map lock, file agreed
    | Record(collab: string, media: string)       // join: listed, not yet recorded in the session
    | AnnounceJoin(collab: string, media: string)
    | DropLeft                                    // leave: announced, guard still held
    | DropClosed                                  // connection over: guard still held
    | CloseChannel                                // connection over: guard dropped

  datatype Session = Session(curCollab: Option<string>, guard: Option<string>, joinedWith: string, pc: Pc)

  datatype Event = Joined | Left | Report(body: string)

  datatype Delivery = Delivery(to: Chan, sender: Chan, collab: string, event: Event)

  datatype Server = Server(
    sessions: map<Chan, Session>,
    senders: SenderLists,
    pins: map<string, string>,
    pinLock: Option<Chan>,
    open: set<Chan>,
    log: seq<Delivery>)

  datatype Action =
    | Connect
    | JoinRequest(collab: string, media: string)
    | DropOldGuard
    | RefuseJoin
    | CollectGarbage
    | PinOrReject
    | PushSender
    | RecordGuard
    | SayJoined
    | SayLeft
    | DropLeftGuard
    | SendReport(body: string)
    | Disconnect
    | DropClosedGuard
    | Close

  function Deliveries(to: seq<Chan>, sender: Chan, collab: string, event: Event): seq<Delivery> {
    seq(|to|, k requires 0 <= k < |to| => Delivery(to[k], sender, collab, event))
  }

  /** Sends to everyone listed for the collab, under the read lock of the list. */
  function FanOut(s: Server, x: Chan, collab: string, event: Event): Server {
    s.(log := s.log + Deliveries(SentTo(Listed(s.senders, collab), s.open), x, collab, event))
  }

  function At(s: Server, x: Chan, ses: Session): Server {
    s.(sessions := s.sessions[x := ses])
  }

  /** One critical section of the handler of session `x`, or `None` when it is not at that point. */
  function Step(s: Server, x: Chan, a: Action): Option<Server> {
    if a.Connect? then
      if x !in s.sessions && x !in s.open
      then Some(At(s, x, Session(None, None, "", Idle)).(open := s.open + {x}))
      else None
    else if x !in s.sessions then None
    else
      var ses := s.sessions[x];
      match (a, ses.pc)
      case (JoinRequest(c, m), Idle) =>
        if ses.curCollab.Some? && IsListed(s.senders, ses.curCollab.value, x) then Some(s)
        else Some(At(s, x, ses.(pc := DropOld(c, m))))
      case (DropOldGuard, DropOld(c, m)) =>
        Some(At(s, x, ses.(guard := None, curCollab := None, pc := Authorize(c, m)))
             .(senders := DropGuard(s.senders, ses.guard, x)))
      case (RefuseJoin, Authorize(c, m)) => Some(At(s, x, ses.(pc := Idle)))
      case (CollectGarbage, Authorize(c, m)) =>
        if s.pinLock.Some? then None
        else Some(At(s, x, ses.(pc := TakePin(c, m))).(pins := Collected(s.pins, s.senders)))
      case (PinOrReject, TakePin(c, m)) =>
        if s.pinLock.Some? then None
        else (match Pinned(s.pins, c, m)
              case None => Some(At(s, x, ses.(pc := Idle)))
              case Some(pins) => Some(At(s, x, ses.(pc := Push(c, m))).(pins := pins, pinLock := Some(x))))
      case (PushSender, Push(c, m)) =>
        Some(At(s, x, ses.(joinedWith := m, pc := Record(c, m)))
             .(senders := AddSender(s.senders, c, x), pinLock := None))
      case (RecordGuard, Record(c, m)) =>
        Some(At(s, x, ses.(guard := Some(c), curCollab := Some(c), pc := AnnounceJoin(c, m))))
      case (SayJoined, AnnounceJoin(c, m)) =>
        Some(At(FanOut(s, x, c, Joined), x, ses.(pc := Idle)))
      case (SayLeft, Idle) =>
        if ses.curCollab.None? then None
        else Some(At(FanOut(s, x, ses.curCollab.value, Left), x, ses.(pc := DropLeft)))
      case (DropLeftGuard, DropLeft) =>
        Some(At(s, x, ses.(guard := None, curCollab := None, pc := Idle))
             .(senders := DropGuard(s.senders, ses.guard, x)))
      case (SendReport(body), Idle) =>
        if ses.curCollab.None? then None
        else Some(FanOut(s, x, ses.curCollab.value, Report(body)))
      case (Disconnect, Idle) => Some(At(s, x, ses.(pc := DropClosed)))
      case (DropClosedGuard, DropClosed) =>
        Some(At(s, x, ses.(guard := None, curCollab := None, pc := CloseChannel))
             .(senders := DropGuard(s.senders, ses.guard, x)))
      case (Close, CloseChannel) => Some(s.(sessions := s.sessions - {x}, open := s.open - {x}))
      case _ => None
  }

  const EMPTY: Server := Server(map[], map[], map[], None, {}, [])

  // ---------------------------------------------------------------- the invariant

  /** The collab whose list a session is on: the one it holds a guard for, or is about to record. */
  function Collab(ses: Session): Option<string> {
    if ses.pc.Record? then Some(ses.pc.collab) else ses.guard
  }

  /** What a session knows about itself at each point of its handlers. */
  ghost predicate SessionOk(ses: Session) {
    && ses.curCollab == ses.guard
    && (ses.pc.Authorize? || ses.pc.TakePin? || ses.pc.Push? || ses.pc.Record? || ses.pc.CloseChannel? ==>
        ses.guard == None)
    && (ses.pc.AnnounceJoin? ==> ses.guard == Some(ses.pc.collab))
    && (ses.pc.DropOld? ==> ses.guard == None)
    && (ses.pc.Record? ==> ses.joinedWith == ses.pc.media)
  }

  ghost predicate SessionsOk(s: Server) {
    && s.open == s.sessions.Keys
    && forall x :: x in s.sessions ==> SessionOk(s.sessions[x])
  }

  /** A channel is listed for a collab exactly when its session says so. */
  ghost predicate ListingOk(s: Server) {
    && ListsOk(s.senders)
    && forall c, x :: IsListed(s.senders, c, x) <==> x in s.sessions && Collab(s.sessions[x]) == Some(c)
  }

  /** The lock on the pin map is held exactly by a session that is about to be listed. */
  ghost predicate LockOk(s: Server) {
    && (forall x :: x in s.sessions && s.sessions[x].pc.Push? ==>
          s.pinLock == Some(x) && s.sessions[x].pc.collab in s.pins
            && s.pins[s.sessions[x].pc.collab] == s.sessions[x].pc.media)
    && (s.pinLock.Some? ==> s.pinLock.value in s.sessions && s.sessions[s.pinLock.value].pc.Push?)
  }

  /** Every participant joined with the media file its collab is pinned to. */
  ghost predicate PinsOk(s: Server) {
    forall x :: x in s.sessions && Collab(s.sessions[x]).Some? ==>
      var c := Collab(s.sessions[x]).value;
      c in s.pins && s.pins[c] == s.sessions[x].joinedWith
  }

  ghost predicate Inv(s: Server) {
    SessionsOk(s) && ListingOk(s) && LockOk(s) && PinsOk(s)
  }

  lemma InvInitially()
    ensures Inv(EMPTY)
  {
  }

  /** A step of one session leaves the others as they are. */
  lemma OthersUntouched(s: Server, x: Chan, a: Action)
    requires Step(s, x, a).Some?
    ensures var t := Step(s, x, a).value;
            && t.sessions - {x} == s.sessions - {x} && t.open - {x} == s.open - {x}
            && (x in t.open <==> !a.Close? && (a.Connect? || x in s.open))
            && (x in t.sessions <==> !a.Close?)
  {
  }

  lemma OwnSessionStep(s: Server, x: Chan, a: Action)
    requires SessionsOk(s) && ListingOk(s) && Step(s, x, a).Some? && !a.Close?
    ensures x in Step(s, x, a).value.sessions && SessionOk(Step(s, x, a).value.sessions[x])
  {
  }

  lemma SessionsStep(s: Server, x: Chan, a: Action)
    requires SessionsOk(s) && ListingOk(s) && Step(s, x, a).Some?
    ensures SessionsOk(Step(s, x, a).value)
  {
    OthersUntouched(s, x, a);
    if !a.Close? {
      OwnSessionStep(s, x, a);
    }
    assert !a.Connect? ==> x in s.sessions;
    hide Step, SessionOk;
    var t := Step(s, x, a).value;
    forall y ensures y in t.open <==> y in t.sessions {
      assert y != x ==> (y in t.open <==> y in t.open - {x}) && (y in t.sessions <==> y in t.sessions - {x});
      assert y != x ==> (y in s.open <==> y in s.open - {x}) && (y in s.sessions <==> y in s.sessions - {x});
    }
    forall y | y in t.sessions ensures SessionOk(t.sessions[y]) {
      assert y != x ==> y in t.sessions - {x} && y in s.sessions - {x} && t.sessions[y] == s.sessions[y];
    }
  }

  lemma ListingStep(s: Server, x: Chan, a: Action)
    requires SessionsOk(s) && ListingOk(s) && Step(s, x, a).Some?
    ensures ListingOk(Step(s, x, a).value)
  {
    if a.DropOldGuard? || a.DropLeftGuard? || a.DropClosedGuard? || a.PushSender? {
      ListsChange(s, x, a);
    } else {
      ListingUnchanged(s, Step(s, x, a).value);
    }
  }

  lemma ListsChange(s: Server, x: Chan, a: Action)
    requires SessionsOk(s) && ListingOk(s) && Step(s, x, a).Some?
    requires a.DropOldGuard? || a.DropLeftGuard? || a.DropClosedGuard? || a.PushSender?
    ensures ListingOk(Step(s, x, a).value)
  {
    var ses := s.sessions[x];
    if a.PushSender? {
      AddExact(s.senders, ses.pc.collab, x);
    } else {
      DropExact(s.senders, ses.guard, x);
    }
    hide ListsOk, IsListed, AddSender, DropGuard;
  }

  lemma ListingUnchanged(s: Server, t: Server)
    requires ListingOk(s) && t.senders == s.senders
    requires forall c, x :: (x in s.sessions && Collab(s.sessions[x]) == Some(c)) <==>
                 (x in t.sessions && Collab(t.sessions[x]) == Some(c))
    ensures ListingOk(t)
  {
  }

  lemma LockStep(s: Server, x: Chan, a: Action)
    requires SessionsOk(s) && LockOk(s) && Step(s, x, a).Some?
    ensures LockOk(Step(s, x, a).value)
  {
  }

  /** A collab that somebody is listed for keeps its media file through every step. */
  lemma PinStays(s: Server, x: Chan, a: Action, c: string, y: Chan)
    requires Step(s, x, a).Some? && IsListed(s.senders, c, y) && c in s.pins
    ensures c in Step(s, x, a).value.pins && Step(s, x, a).value.pins[c] == s.pins[c]
  {
  }

  lemma PinsStep(s: Server, x: Chan, a: Action)
    requires Inv(s) && Step(s, x, a).Some?
    ensures PinsOk(Step(s, x, a).value)
  {
    var t := Step(s, x, a).value;
    forall y | y in t.sessions && Collab(t.sessions[y]).Some?
      ensures var c := Collab(t.sessions[y]).value; c in t.pins && t.pins[c] == t.sessions[y].joinedWith
    {
      var c := Collab(t.sessions[y]).value;
      if y in s.sessions && Collab(s.sessions[y]) == Some(c) {
        assert IsListed(s.senders, c, y);
        PinStays(s, x, a, c, y);
      }
    }
  }

  lemma InvStep(s: Server, x: Chan, a: Action)
    requires Inv(s) && Step(s, x, a).Some?
    ensures Inv(Step(s, x, a).value)
  {
    SessionsStep(s, x, a);
    ListingStep(s, x, a);
    LockStep(s, x, a);
    PinsStep(s, x, a);
  }

  // ---------------------------------------------------------------- every run

  /** The states of a run from the empty server, one critical section of one session after the other. */
  ghost predicate IsRun(run: seq<Server>, steps: seq<(Chan, Action)>) {
    && |run| == |steps| + 1 && run[0] == EMPTY
    && forall k :: 0 <= k < |steps| ==> Step(run[k], steps[k].0, steps[k].1) == Some(run[k + 1])
  }

  lemma {:induction false} EveryRunKeepsInv(run: seq<Server>, steps: seq<(Chan, Action)>, n: nat)
    requires IsRun(run, steps) && n <= |steps|
    ensures Inv(run[n])
  {
    hide Inv, Step;
    if n == 0 {
      InvInitially();
    } else {
      EveryRunKeepsInv(run, steps, n - 1);
      assert Step(run[n - 1], steps[n - 1].0, steps[n - 1].1) == Some(run[n - 1 + 1]);
      InvStep(run[n - 1], steps[n - 1].0, steps[n - 1].1);
    }
  }

  /** In every interleaving: whoever is listed for a collab joined it with the media file it is pinned to. */
  lemma ParticipantsSharePin(run: seq<Server>, steps: seq<(Chan, Action)>, n: nat, c: string, x: Chan)
    requires IsRun(run, steps) && n <= |steps| && IsListed(run[n].senders, c, x)
    ensures x in run[n].sessions && c in run[n].pins && run[n].pins[c] == run[n].sessions[x].joinedWith
  {
    hide Step;
    EveryRunKeepsInv(run, steps, n);
    assert Collab(run[n].sessions[x]) == Some(c);
  }

  ghost predicate Occupied(s: Server, c: string) {
    exists x :: IsListed(s.senders, c, x)
  }

  /** While a collab has participants, whoever they are, its media file never changes. */
  lemma {:induction false} PinConstantWhileOccupied(run: seq<Server>, steps: seq<(Chan, Action)>, i: nat, j: nat,
                                                    c: string)
    requires IsRun(run, steps) && i <= j <= |steps|
    requires forall k :: i <= k <= j ==> Occupied(run[k], c)
    ensures c in run[i].pins && c in run[j].pins && run[i].pins[c] == run[j].pins[c]
    decreases j
  {
    hide Step;
    assert Occupied(run[j], c);
    var y :| IsListed(run[j].senders, c, y);
    ParticipantsSharePin(run, steps, j, c, y);
    if i < j {
      PinConstantWhileOccupied(run, steps, i, j - 1, c);
      assert Occupied(run[j - 1], c);
      var x :| IsListed(run[j - 1].senders, c, x);
      PinStays(run[j - 1], steps[j - 1].0, steps[j - 1].1, c, x);
    }
  }

  /** A session between two handlers is listed exactly for the collab it believes to be in, if any. */
  lemma IdleSessionExact(run: seq<Server>, steps: seq<(Chan, Action)>, n: nat, x: Chan, c: string)
    requires IsRun(run, steps) && n <= |steps| && x in run[n].sessions && run[n].sessions[x].pc.Idle?
    ensures IsListed(run[n].senders, c, x) <==> run[n].sessions[x].curCollab == Some(c)
  {
    hide Step;
    EveryRunKeepsInv(run, steps, n);
  }

  /** At no point is a session listed for two collabs, or twice for one. */
  lemma ListedOnce(run: seq<Server>, steps: seq<(Chan, Action)>, n: nat, x: Chan, c: string, d: string)
    requires IsRun(run, steps) && n <= |steps| && IsListed(run[n].senders, c, x)
    ensures IsListed(run[n].senders, d, x) ==> c == d
    ensures NoDup(Listed(run[n].senders, c))
  {
    hide Step;
    EveryRunKeepsInv(run, steps, n);
  }

  /** A session that is in a collab stays there: joining again, even another one, is ignored. */
  lemma DoubleJoinIgnored(run: seq<Server>, steps: seq<(Chan, Action)>, n: nat, x: Chan, c: string, m: string)
    requires IsRun(run, steps) && n <= |steps| && x in run[n].sessions && run[n].sessions[x].pc.Idle?
    ensures Step(run[n], x, JoinRequest(c, m)) == Some(run[n]) <==> run[n].sessions[x].curCollab.Some?
  {
    var s := run[n];
    if s.sessions[x].curCollab.Some? {
      IdleSessionExact(run, steps, n, x, s.sessions[x].curCollab.value);
    } else {
      var t := Step(s, x, JoinRequest(c, m)).value;
      assert t.sessions[x].pc.DropOld?;
    }
  }

  /** How many of the deliveries go to `y`. */
  function Count(ds: seq<Delivery>, y: Chan): nat {
    if ds == [] then 0 else (if ds[0].to == y then 1 else 0) + Count(ds[1..], y)
  }

  lemma {:induction false} CountDeliveries(list: seq<Chan>, sender: Chan, collab: string, event: Event, y: Chan)
    requires NoDup(list)
    ensures Count(Deliveries(list, sender, collab, event), y) == if y in list then 1 else 0
  {
    if list != [] {
      CountDeliveries(list[1..], sender, collab, event, y);
      assert Deliveries(list, sender, collab, event)[1..] == Deliveries(list[1..], sender, collab, event);
      assert list[0] !in list[1..];
      assert list == [list[0]] + list[1..];
    }
  }

  /** A fan-out reaches everyone: no listed channel is ever closed. */
  lemma NoSendFails(s: Server, c: string)
    requires Inv(s)
    ensures SentTo(Listed(s.senders, c), s.open) == Listed(s.senders, c)
  {
    var list := Listed(s.senders, c);
    forall k | 0 <= k < |list| ensures list[k] in s.open {
      assert IsListed(s.senders, c, list[k]);
    }
    SentToAll(list, s.open);
  }

  /** A report is delivered once to every participant of the sender's collab, the sender included,
      and to nobody else. */
  lemma ReportExact(run: seq<Server>, steps: seq<(Chan, Action)>, n: nat, body: string, y: Chan)
    requires IsRun(run, steps) && n < |steps| && steps[n].1 == SendReport(body)
    ensures steps[n].0 in run[n].sessions && run[n].sessions[steps[n].0].curCollab.Some?
    ensures var x := steps[n].0;
            var c := run[n].sessions[x].curCollab.value;
            var sent := Deliveries(Listed(run[n].senders, c), x, c, Report(body));
            && run[n + 1].log == run[n].log + sent
            && Count(sent, y) == (if IsListed(run[n].senders, c, y) then 1 else 0)
            && (IsListed(run[n].senders, c, y) <==> y in run[n].sessions && Collab(run[n].sessions[y]) == Some(c))
  {
    EveryRunKeepsInv(run, steps, n);
    var s, x := run[n], steps[n].0;
    assert Step(s, x, SendReport(body)) == Some(run[n + 1]);
    var c := s.sessions[x].curCollab.value;
    NoSendFails(s, c);
    CountDeliveries(Listed(s.senders, c), x, c, Report(body), y);
  }

  /** A session that has joined, or is about to leave, is announced once to every participant of its
      collab, itself included, and to nobody else. */
  lemma AnnouncementExact(run: seq<Server>, steps: seq<(Chan, Action)>, n: nat, y: Chan)
    requires IsRun(run, steps) && n < |steps| && (steps[n].1.SayJoined? || steps[n].1.SayLeft?)
    ensures steps[n].0 in run[n].sessions && Collab(run[n].sessions[steps[n].0]).Some?
    ensures var x := steps[n].0;
            var c := Collab(run[n].sessions[x]).value;
            var sent := Deliveries(Listed(run[n].senders, c), x, c, if steps[n].1.SayJoined? then Joined else Left);
            && run[n + 1].log == run[n].log + sent
            && Count(sent, y) == (if IsListed(run[n].senders, c, y) then 1 else 0)
            && IsListed(run[n].senders, c, x)
  {
    EveryRunKeepsInv(run, steps, n);
    var s, x := run[n], steps[n].0;
    assert Step(s, x, steps[n].1) == Some(run[n + 1]);
    var c := Collab(s.sessions[x]).value;
    NoSendFails(s, c);
    CountDeliveries(Listed(s.senders, c), x, c, if steps[n].1.SayJoined? then Joined else Left, y);
  }

  /** No step waits for ever: whoever holds the lock on the pin map can take the step that frees it,
      and with the lock free every session can go on. */
  lemma NobodyIsStuck(run: seq<Server>, steps: seq<(Chan, Action)>, n: nat, x: Chan)
    requires IsRun(run, steps) && n <= |steps| && x in run[n].sessions
    ensures run[n].pinLock.Some? ==>
              var t := Step(run[n], run[n].pinLock.value, PushSender); t.Some? && t.value.pinLock.None?
    ensures run[n].pinLock.None? ==> exists a :: Step(run[n], x, a).Some?
  {
    EveryRunKeepsInv(run, steps, n);
    var s := run[n];
    var a := match s.sessions[x].pc
             case Idle => Disconnect
             case DropOld(_, _) => DropOldGuard
             case Authorize(_, _) => CollectGarbage
             case TakePin(_, _) => PinOrReject
             case Push(_, _) => PushSender
             case Record(_, _) => RecordGuard
             case AnnounceJoin(_, _) => SayJoined
             case DropLeft => DropLeftGuard
             case DropClosed => DropClosedGuard
             case CloseChannel => Close;
    assert s.pinLock.None? ==> Step(s, x, a).Some?;
  }

  // ---------------------------------------------------------------- who gets in

  /** With the lock on the pin map free, a session gets past it exactly when the collab has no media
      file or has the one the session brings. Otherwise it is turned away, and no pin changes. */
  lemma PinOrRejectExactly(s: Server, x: Chan, c: string, m: string)
    requires x in s.sessions && s.sessions[x].pc == TakePin(c, m) && s.pinLock.None?
    ensures var t := Step(s, x, PinOrReject);
            && t.Some?
            && (t.value.sessions[x].pc == Push(c, m) <==> c !in s.pins || s.pins[c] == m)
            && (t.value.sessions[x].pc != Push(c, m) ==> t.value.sessions[x].pc == Idle && t.value.pins == s.pins)
            && (t.value.sessions[x].pc == Push(c, m) ==> t.value.pins == s.pins[c := m])
  {
  }

  ghost predicate Reachable(s: Server) {
    exists run: seq<Server>, steps: seq<(Chan, Action)> :: IsRun(run, steps) && run[|steps|] == s
  }

  lemma ReachableFirst()
    ensures Reachable(EMPTY)
  {
    var none: seq<(Chan, Action)> := [];
    assert IsRun([EMPTY], none) && [EMPTY][|none|] == EMPTY;
  }

  lemma ReachableNext(s: Server, x: Chan, a: Action)
    requires Reachable(s) && Step(s, x, a).Some?
    ensures Reachable(Step(s, x, a).value)
  {
    hide Step;
    var t := Step(s, x, a).value;
    var run: seq<Server>, steps: seq<(Chan, Action)> :| IsRun(run, steps) && run[|steps|] == s;
    var run': seq<Server>, steps': seq<(Chan, Action)> := run + [t], steps + [(x, a)];
    forall k | 0 <= k < |steps'| ensures Step(run'[k], steps'[k].0, steps'[k].1) == Some(run'[k + 1]) {
      if k < |steps| {
        assert Step(run[k], steps[k].0, steps[k].1) == Some(run[k + 1]);
      }
    }
    assert IsRun(run', steps') && run'[|steps'|] == t;
  }

  lemma ReachableInv(s: Server)
    requires Reachable(s)
    ensures Inv(s)
  {
    var run, steps :| IsRun(run, steps) && run[|steps|] == s;
    EveryRunKeepsInv(run, steps, |steps|);
  }

  /** A session between two handlers, in no collab. */
  predicate IsFree(s: Server, x: Chan) {
    x in s.sessions && s.sessions[x].pc.Idle? && s.sessions[x].curCollab.None?
  }

  /** Whoever is listed stays listed. */
  ghost predicate KeepsListed(s: Server, t: Server) {
    forall c, y :: IsListed(s.senders, c, y) ==> IsListed(t.senders, c, y)
  }

  /** A free session reaches the pin map, with garbage collected, and nothing else changed. */
  lemma ReachesPin(s: Server, x: Chan, c: string, m: string) returns (t: Server)
    requires Reachable(s) && IsFree(s, x) && s.pinLock.None?
    ensures Reachable(t) && t.senders == s.senders && t.pinLock.None?
    ensures t.pins == Collected(s.pins, s.senders)
    ensures t.sessions.Keys == s.sessions.Keys && t.sessions[x].pc == TakePin(c, m) && t.sessions[x].guard.None?
    ensures forall y :: y in s.sessions && y != x ==> t.sessions[y] == s.sessions[y]
  {
    ReachableInv(s);
    var s1 := Step(s, x, JoinRequest(c, m)).value;
    ReachableNext(s, x, JoinRequest(c, m));
    var s2 := Step(s1, x, DropOldGuard).value;
    ReachableNext(s1, x, DropOldGuard);
    t := Step(s2, x, CollectGarbage).value;
    ReachableNext(s2, x, CollectGarbage);
  }

  /** From the pin map on, an accepted session ends up listed, with everyone else. */
  lemma PinnedGetsIn(s: Server, x: Chan, c: string, m: string) returns (t: Server)
    requires Reachable(s) && x in s.sessions && s.sessions[x].pc == TakePin(c, m) && s.pinLock.None?
    requires c !in s.pins || s.pins[c] == m
    ensures Reachable(t) && t.pinLock.None? && KeepsListed(s, t) && IsListed(t.senders, c, x)
    ensures x in t.sessions && t.sessions[x].pc.Idle? && t.sessions[x].curCollab == Some(c)
    ensures t.sessions.Keys == s.sessions.Keys && c in t.pins && t.pins[c] == m
    ensures forall y :: y in s.sessions && y != x ==> t.sessions[y] == s.sessions[y]
  {
    hide Reachable, Pinned, FanOut;
    PinOrRejectExactly(s, x, c, m);
    var s1 := Step(s, x, PinOrReject).value;
    ReachableNext(s, x, PinOrReject);
    var s2 := Step(s1, x, PushSender).value;
    ReachableNext(s1, x, PushSender);
    AddExact(s1.senders, c, x);
    t := PushedSettles(s2, x, c, m);
  }

  lemma PushedSettles(s: Server, x: Chan, c: string, m: string) returns (t: Server)
    requires Reachable(s) && x in s.sessions && s.sessions[x].pc == Record(c, m)
    ensures Reachable(t) && t.senders == s.senders && t.pins == s.pins && t.pinLock == s.pinLock
    ensures x in t.sessions && t.sessions[x].pc.Idle? && t.sessions[x].curCollab == Some(c)
    ensures t.sessions.Keys == s.sessions.Keys
    ensures forall y :: y in s.sessions && y != x ==> t.sessions[y] == s.sessions[y]
  {
    hide Reachable;
    var s1 := Step(s, x, RecordGuard).value;
    ReachableNext(s, x, RecordGuard);
    t := Step(s1, x, SayJoined).value;
    ReachableNext(s1, x, SayJoined);
  }

  /** In every reachable state with the lock free, a free session can join a collab that nobody is
      in, or whose media file it brings, and nobody loses their place by it. */
  lemma CanJoin(s: Server, x: Chan, c: string, m: string) returns (t: Server)
    requires Reachable(s) && IsFree(s, x) && s.pinLock.None?
    requires !Occupied(s, c) || c !in s.pins || s.pins[c] == m
    ensures Reachable(t) && t.pinLock.None? && KeepsListed(s, t) && IsListed(t.senders, c, x)
    ensures t.sessions.Keys == s.sessions.Keys && c in t.pins && t.pins[c] == m
    ensures forall y :: y in s.sessions && y != x ==> t.sessions[y] == s.sessions[y]
  {
    hide Step, Reachable;
    var u := ReachesPin(s, x, c, m);
    assert c in u.pins ==> Listed(s.senders, c) != [] && IsListed(s.senders, c, Listed(s.senders, c)[0]);
    t := PinnedGetsIn(u, x, c, m);
  }

  lemma Connects(s: Server, x: Chan) returns (t: Server)
    requires Reachable(s) && x !in s.sessions
    ensures Reachable(t) && IsFree(t, x) && t.pinLock == s.pinLock && t.senders == s.senders && t.pins == s.pins
    ensures t.sessions.Keys == s.sessions.Keys + {x}
    ensures forall y :: y in s.sessions ==> t.sessions[y] == s.sessions[y]
  {
    ReachableInv(s);
    t := Step(s, x, Connect).value;
    ReachableNext(s, x, Connect);
  }

  /** Two sessions can take part in one collab. */
  lemma TwoParticipants(c: string, m: string)
    ensures exists s :: Reachable(s) && IsListed(s.senders, c, 1) && IsListed(s.senders, c, 2)
  {
    hide Step, Reachable;
    ReachableFirst();
    var s1 := Connects(EMPTY, 1);
    var s2 := Connects(s1, 2);
    var s3 := CanJoin(s2, 1, c, m);
    var s4 := CanJoin(s3, 2, c, m);
    assert IsListed(s4.senders, c, 1);
  }
}
