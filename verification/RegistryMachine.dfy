/** The registry of interfaces, its observers and its polling thread, as a state machine over calls that
    are made one at a time, and what holds in every run of it. */
module RegistryMachine {
  import opened InterfaceEvents

  /** The address of an observer; 0 is the null pointer. */
  type Observer = nat

  /** What is done in the course of a run. */
  datatype Mark = Enumerated | Answered | Started | Stopped

  /** The state of the polling thread. `aborted` says that a thread was assigned over a joinable one,
      which ends the program. */
  datatype Poller = Poller(joinable: bool, shouldTerminate: bool, enumeratedOnce: bool,
                           aborted: bool, history: seq<Mark>)

  type Logs = map<Observer, seq<Event>>

  /** `logs` gives for each registered observer the events that it got since it was registered. */
  datatype State = State(interfaces: Interfaces, logs: Logs, poller: Poller)

  /** The calls, each with the list that the operating system would then give. */
  datatype Call =
    | Register(observer: Observer, scan: Interfaces)
    | Unregister(observer: Observer)
    | Query(scan: Interfaces)
    | Poll(scan: Interfaces)
    | Notify(update: Update)

  function Initially(): State {
    State(map[], map[], Poller(false, false, false, false, []))
  }

  // ---- the parts of a step ----

  function SentToAll(logs: Logs, events: seq<Event>): Logs {
    map observer | observer in logs :: logs[observer] + events
  }

  lemma SentKeepsObservers(logs: Logs, events: seq<Event>)
    ensures SentToAll(logs, events).Keys == logs.Keys
    ensures SentToAll(logs, events) == map[] <==> logs == map[]
  {
    assert logs.Keys == {} <==> logs == map[];
  }

  function Noted(poller: Poller, mark: Mark): Poller {
    poller.(history := poller.history + [mark])
  }

  /** A new list replaces the old one and its differences are sent to every observer. */
  ghost predicate Refreshed(s: State, interfaces: Interfaces, s': State) {
    exists events ::
      Refresh(s.interfaces, interfaces, events) &&
      s' == State(interfaces, SentToAll(s.logs, events), s.poller)
  }

  /** Enumerate now, unless it was done before. */
  ghost predicate Waited(s: State, scan: Interfaces, s': State) {
    if s.poller.enumeratedOnce then s' == s
    else Refreshed(s.(poller := Noted(s.poller, Enumerated).(enumeratedOnce := true)), scan, s')
  }

  function StartThread(poller: Poller): Poller {
    Noted(poller, Started).(joinable := true, shouldTerminate := false,
                            aborted := poller.aborted || poller.joinable)
  }

  function StopThread(poller: Poller): Poller {
    var told := Noted(poller, Stopped).(shouldTerminate := true);
    if poller.joinable then told.(joinable := false, enumeratedOnce := false) else told
  }

  /** A new observer is told of all interfaces, in some order; the first one starts the thread. */
  ghost predicate Registered(s: State, observer: Observer, s': State) {
    if observer == 0 || observer in s.logs then s' == s
    else
      exists order ::
        Enumerates(order, s.interfaces.Keys) &&
        s' == State(s.interfaces, s.logs[observer := Additions(s.interfaces, order)],
                    var poller := Noted(s.poller, Answered);
                    if s.logs == map[] then StartThread(poller) else poller)
  }

  function Unregistered(s: State, observer: Observer): State {
    if observer == 0 || observer !in s.logs then s
    else
      var logs := s.logs - {observer};
      s.(logs := logs, poller := if logs == map[] then StopThread(s.poller) else s.poller)
  }

  ghost predicate Next(s: State, call: Call, s': State) {
    match call
    case Register(observer, scan) => exists s1 :: Waited(s, scan, s1) && Registered(s1, observer, s')
    case Unregister(observer) => s' == Unregistered(s, observer)
    case Query(scan) => exists s1 :: Waited(s, scan, s1) && s' == s1.(poller := Noted(s1.poller, Answered))
    case Poll(scan) =>
      if s.poller.joinable && !s.poller.shouldTerminate
      then Refreshed(s.(poller := Noted(s.poller, Enumerated)), scan, s')
      else s' == s
    case Notify(update) =>
      s' == s.(interfaces := Apply(s.interfaces, update), logs := SentToAll(s.logs, Sent(s.interfaces, update)))
  }

  /** A run from the initial state: the states that follow one another by the calls. */
  ghost predicate Run(states: seq<State>, calls: seq<Call>) {
    |states| == |calls| + 1 && states[0] == Initially() &&
    forall i :: 0 <= i < |calls| ==> Next(states[i], calls[i], states[i + 1])
  }

  // ---- every observer can rebuild the registry ----

  /** The operating system names interfaces by their identifiers. */
  ghost predicate KeyedCall(call: Call) {
    match call
    case Unregister(_) => true
    case Notify(update) => update.InterfaceAdded? ==> update.intfc.id == update.name
    case _ => Keyed(call.scan)
  }

  /** What every observer saw since its registration is what the registry holds. */
  ghost predicate Mirrored(s: State) {
    Keyed(s.interfaces) &&
    forall observer :: observer in s.logs ==> SeeAll(map[], s.logs[observer]) == PictureOf(s.interfaces)
  }

  lemma RefreshedMirrors(s: State, interfaces: Interfaces, s': State)
    requires Mirrored(s) && Keyed(interfaces) && Refreshed(s, interfaces, s')
    ensures Mirrored(s')
  {
    hide Keyed, SeeAll, Refresh, PictureOf;
    var events :| Refresh(s.interfaces, interfaces, events) &&
      s' == State(interfaces, SentToAll(s.logs, events), s.poller);
    PictureFollowsRefresh(s.interfaces, interfaces, events);
    forall observer | observer in s'.logs
      ensures SeeAll(map[], s'.logs[observer]) == PictureOf(interfaces)
    {
      SeeInTurn(map[], s.logs[observer], events);
    }
  }

  lemma WaitedMirrors(s: State, scan: Interfaces, s': State)
    requires Mirrored(s) && Keyed(scan) && Waited(s, scan, s')
    ensures Mirrored(s')
  {
    hide Keyed, SeeAll, PictureOf, Refreshed;
    if !s.poller.enumeratedOnce {
      RefreshedMirrors(s.(poller := Noted(s.poller, Enumerated).(enumeratedOnce := true)), scan, s');
    }
  }

  lemma RegisteredMirrors(s: State, observer: Observer, s': State)
    requires Mirrored(s) && Registered(s, observer, s')
    ensures Mirrored(s')
  {
    hide Keyed, SeeAll, PictureOf, Additions;
    if observer != 0 && observer !in s.logs {
      var order :| Enumerates(order, s.interfaces.Keys) &&
        s' == State(s.interfaces, s.logs[observer := Additions(s.interfaces, order)],
                    var poller := Noted(s.poller, Answered);
                    if s.logs == map[] then StartThread(poller) else poller);
      PictureFromNothing(s.interfaces, order);
    }
  }

  /** An incremental update is a refresh with the updated list: same registry, same events. */
  lemma NotifyIsRefresh(s: State, update: Update, s': State)
    ensures Next(s, Notify(update), s') <==> Refreshed(s, Apply(s.interfaces, update), s')
  {
    hide Refresh, Sent, Apply;
    var events := Sent(s.interfaces, update);
    UpdateIsRefresh(s.interfaces, update, events);
    if Refreshed(s, Apply(s.interfaces, update), s') {
      var some :| Refresh(s.interfaces, Apply(s.interfaces, update), some) &&
        s' == State(Apply(s.interfaces, update), SentToAll(s.logs, some), s.poller);
      UpdateIsRefresh(s.interfaces, update, some);
    }
  }

  lemma NextMirrors(s: State, call: Call, s': State)
    requires Mirrored(s) && KeyedCall(call) && Next(s, call, s')
    ensures Mirrored(s')
  {
    hide Keyed, SeeAll, PictureOf, Refreshed, Registered, Waited, Apply, Sent;
    match call
    case Register(observer, scan) =>
      var s1 :| Waited(s, scan, s1) && Registered(s1, observer, s');
      WaitedMirrors(s, scan, s1);
      RegisteredMirrors(s1, observer, s');
    case Unregister(_) =>
    case Query(scan) =>
      var s1 :| Waited(s, scan, s1) && s' == s1.(poller := Noted(s1.poller, Answered));
      WaitedMirrors(s, scan, s1);
    case Poll(scan) =>
      if s.poller.joinable && !s.poller.shouldTerminate {
        RefreshedMirrors(s.(poller := Noted(s.poller, Enumerated)), scan, s');
      }
    case Notify(update) =>
      NotifyIsRefresh(s, update, s');
      ApplyKeepsKeys(s.interfaces, update);
      RefreshedMirrors(s, Apply(s.interfaces, update), s');
  }

  /** In every run, whatever the calls and the orders of iteration, every observer that is registered
      rebuilds the names and the monitored fields from the events that it got since its registration. */
  lemma {:induction false} ObserversMirror(states: seq<State>, calls: seq<Call>, i: nat)
    requires Run(states, calls) && i <= |calls|
    requires forall k :: 0 <= k < |calls| ==> KeyedCall(calls[k])
    ensures Mirrored(states[i])
  {
    hide Next, KeyedCall;
    if i > 0 {
      ObserversMirror(states, calls, i - 1);
      NextMirrors(states[i - 1], calls[i - 1], states[i]);
    }
  }

  /** Observers agree, however long each of them is registered. */
  lemma ObserversAgree(states: seq<State>, calls: seq<Call>, i: nat, early: Observer, late: Observer)
    requires Run(states, calls) && i <= |calls|
    requires forall k :: 0 <= k < |calls| ==> KeyedCall(calls[k])
    requires early in states[i].logs && late in states[i].logs
    ensures SeeAll(map[], states[i].logs[early]) == SeeAll(map[], states[i].logs[late])
  {
    ObserversMirror(states, calls, i);
  }

  /** The mirror needs the names to be the identifiers: one list that breaks this, and the observer
      knows an interface by a name that the registry does not have. */
  lemma MirrorNeedsKeys(observer: Observer, intfc: Interface)
    requires observer != 0 && intfc.id == "eth0"
    ensures exists s' :: (
      Next(Initially(), Register(observer, map["lan" := intfc]), s') &&
      observer in s'.logs &&
      SeeAll(map[], s'.logs[observer]) != PictureOf(s'.interfaces))
  {
    var scan: Interfaces, poller := map["lan" := intfc], Poller(false, false, true, false, [Enumerated]);
    var order: seq<string> := ["lan"];
    var s1 := State(scan, map[], poller);
    var s' := State(scan, map[observer := Additions(scan, order)], StartThread(Noted(poller, Answered)));
    assert Waited(Initially(), scan, s1) by {
      FirstRefresh(scan, order);
    }
    assert Registered(s1, observer, s');
    assert Next(Initially(), Register(observer, scan), s');
    SeesIdentifier(scan, intfc);
  }

  lemma FirstRefresh(scan: Interfaces, order: seq<string>)
    requires Enumerates(order, scan.Keys)
    ensures Refresh(map[], scan, Additions(scan, order))
  {
    hide Additions;
    var before: Interfaces, none: seq<string> := map[], [];
    assert Removals(before, none) + Additions(scan, order) + Changes(before, scan, none) == Additions(scan, order);
    assert RefreshIn(before, scan, Additions(scan, order), none, order, none);
  }

  lemma SeesIdentifier(scan: Interfaces, intfc: Interface)
    requires scan == map["lan" := intfc] && intfc.id == "eth0"
    ensures SeeAll(map[], Additions(scan, ["lan"])) != PictureOf(scan)
  {
    hide FieldsOf;
    assert "lan" != "eth0" by {
      assert |"lan"| != |"eth0"|;
    }
    assert Additions(scan, ["lan"]) == [Added(intfc)];
    SeeOne(map[], [], Added(intfc));
    assert [] + [Added(intfc)] == [Added(intfc)];
    assert "lan" in PictureOf(scan);
  }

  // ---- logs are only added to ----

  /** An observer that stays registered keeps what it got and gets only the events of the step. */
  lemma LogsGrow(s: State, call: Call, s': State, observer: Observer)
    requires Next(s, call, s') && observer in s.logs && call != Unregister(observer)
    ensures observer in s'.logs && s.logs[observer] <= s'.logs[observer]
    ensures forall other :: other in s.logs && other in s'.logs ==>
      s'.logs[other][|s.logs[other]|..] == s'.logs[observer][|s.logs[observer]|..]
  {
    hide Refresh, Additions, Sent, Enumerates;
    match call
    case Register(newcomer, scan) =>
      var s1 :| Waited(s, scan, s1) && Registered(s1, newcomer, s');
    case _ =>
  }

  /** Registration tells of every interface once, and of nothing else. */
  lemma RegistrationReplays(s: State, observer: Observer, s': State, event: Event)
    requires Keyed(s.interfaces) && Registered(s, observer, s') && observer != 0 && observer !in s.logs
    ensures observer in s'.logs
    ensures multiset(s'.logs[observer])[event]
         == if event.Added? && event.intfc.id in s.interfaces && s.interfaces[event.intfc.id] == event.intfc
            then 1 else 0
  {
    hide Additions;
    var order :| Enumerates(order, s.interfaces.Keys) &&
      s' == State(s.interfaces, s.logs[observer := Additions(s.interfaces, order)],
                  var poller := Noted(s.poller, Answered);
                  if s.logs == map[] then StartThread(poller) else poller);
    CountAdditions(s.interfaces, order, event);
  }

  // ---- what each call does ----

  /** The events that the change from one list to another calls for, and no others, were added to a log. */
  ghost predicate SentExactly(s: State, interfaces: Interfaces, s': State, observer: Observer, event: Event)
    requires observer in s.logs && observer in s'.logs
  {
    s.logs[observer] <= s'.logs[observer] &&
    multiset(s'.logs[observer][|s.logs[observer]|..])[event]
    == if Expected(s.interfaces, interfaces, event) then 1 else 0
  }

  /** What was added to a log is in the order of a refresh. */
  ghost predicate SentInOrder(s: State, s': State, observer: Observer)
    requires observer in s.logs && observer in s'.logs && |s.logs[observer]| <= |s'.logs[observer]|
  {
    var added := s'.logs[observer][|s.logs[observer]|..];
    ByField(added) && forall i, j :: 0 <= i < j < |added| ==> Rank(added[i]) <= Rank(added[j])
  }

  lemma RefreshedSends(s: State, interfaces: Interfaces, s': State, observer: Observer, event: Event)
    requires Refreshed(s, interfaces, s') && observer in s.logs
    ensures observer in s'.logs && s'.interfaces == interfaces
    ensures Keyed(s.interfaces) && Keyed(interfaces) ==>
      SentExactly(s, interfaces, s', observer, event) && SentInOrder(s, s', observer)
  {
    hide Refresh, Expected, Keyed, ByField, Rank;
    var events :| Refresh(s.interfaces, interfaces, events) &&
      s' == State(interfaces, SentToAll(s.logs, events), s.poller);
    assert s'.logs[observer][|s.logs[observer]|..] == events;
    if Keyed(s.interfaces) && Keyed(interfaces) {
      RefreshIsExact(s.interfaces, interfaces, events, event);
      RefreshInOrder(s.interfaces, interfaces, events);
    }
  }

  /** A poll takes over the list that it finds if there are observers, and does nothing otherwise. */
  lemma PollTakesOver(s: State, scan: Interfaces, s': State)
    requires WellPolled(s) && Next(s, Poll(scan), s')
    ensures s.logs == map[] ==> s' == s
    ensures s.logs != map[] ==>
      s'.interfaces == scan && s'.logs.Keys == s.logs.Keys && s'.poller == Noted(s.poller, Enumerated)
  {
    hide Refresh, Running, Fresh, Orderly;
  }

  /** A poll sends every observer each difference between the lists once, and nothing else. */
  lemma PollSends(s: State, scan: Interfaces, s': State, observer: Observer, event: Event)
    requires WellPolled(s) && Next(s, Poll(scan), s') && observer in s.logs
    requires Keyed(s.interfaces) && Keyed(scan)
    ensures observer in s'.logs && SentExactly(s, scan, s', observer, event) && SentInOrder(s, s', observer)
  {
    hide Refreshed, SentExactly, Running, Fresh, Orderly, Keyed, ByField, Rank;
    assert s.logs != map[];
    var noted := s.(poller := Noted(s.poller, Enumerated));
    RefreshedSends(noted, scan, s', observer, event);
    SameSent(noted, s, scan, s', observer, event);
  }

  lemma SameSent(s: State, t: State, interfaces: Interfaces, s': State, observer: Observer, event: Event)
    requires observer in s.logs && observer in s'.logs && s.logs == t.logs && s.interfaces == t.interfaces
    ensures SentExactly(s, interfaces, s', observer, event) == SentExactly(t, interfaces, s', observer, event)
  {
  }

  /** Waiting takes over the list if none was enumerated before, and does nothing otherwise. */
  lemma WaitTakesOver(s: State, scan: Interfaces, s': State)
    requires Waited(s, scan, s')
    ensures s.poller.enumeratedOnce ==> s' == s
    ensures !s.poller.enumeratedOnce ==> s'.interfaces == scan && s'.logs.Keys == s.logs.Keys
    ensures s'.poller.enumeratedOnce && s'.poller.joinable == s.poller.joinable
    ensures s'.poller.history == s.poller.history + if s.poller.enumeratedOnce then [] else [Enumerated]
  {
    hide Refresh;
  }

  lemma WaitSends(s: State, scan: Interfaces, s': State, observer: Observer, event: Event)
    requires Waited(s, scan, s') && !s.poller.enumeratedOnce && observer in s.logs
    requires Keyed(s.interfaces) && Keyed(scan)
    ensures observer in s'.logs && SentExactly(s, scan, s', observer, event)
  {
    hide Refreshed, SentExactly, Keyed;
    var noted := s.(poller := Noted(s.poller, Enumerated).(enumeratedOnce := true));
    RefreshedSends(noted, scan, s', observer, event);
    SameSent(noted, s, scan, s', observer, event);
  }

  /** A query answers from the list as it is, or if none was enumerated from the one that it finds, which
      then replaces the list; observers get nothing in the first case. */
  lemma QueryTakesOver(s: State, scan: Interfaces, s': State)
    requires Next(s, Query(scan), s')
    ensures s'.interfaces == if s.poller.enumeratedOnce then s.interfaces else scan
    ensures s'.logs.Keys == s.logs.Keys && (s.poller.enumeratedOnce ==> s'.logs == s.logs)
    ensures s'.poller.enumeratedOnce && s'.poller.joinable == s.poller.joinable
    ensures s'.poller.history
         == s.poller.history + if s.poller.enumeratedOnce then [Answered] else [Enumerated, Answered]
  {
    hide Waited;
    var s1 :| Waited(s, scan, s1) && s' == s1.(poller := Noted(s1.poller, Answered));
    WaitTakesOver(s, scan, s1);
  }

  /** Registration adds the observer unless it is null, with the list treated as by a query; a null or known
      observer changes nothing else. */
  lemma RegisterAdds(s: State, observer: Observer, scan: Interfaces, s': State)
    requires Next(s, Register(observer, scan), s')
    ensures s'.interfaces == if s.poller.enumeratedOnce then s.interfaces else scan
    ensures s'.logs.Keys == s.logs.Keys + ({observer} - {0})
    ensures s.poller.enumeratedOnce ==> forall other :: other in s.logs ==> s'.logs[other] == s.logs[other]
    ensures s.poller.enumeratedOnce && (observer == 0 || observer in s.logs) ==> s' == s
    ensures s'.poller.joinable == (s.poller.joinable || (observer != 0 && s.logs == map[]))
    ensures s'.poller.history
         == s.poller.history + (if s.poller.enumeratedOnce then [] else [Enumerated])
            + (if observer == 0 || observer in s.logs then []
               else if s.logs == map[] then [Answered, Started]
               else [Answered])
  {
    hide Waited, Additions, Enumerates;
    var s1 :| Waited(s, scan, s1) && Registered(s1, observer, s');
    WaitTakesOver(s, scan, s1);
    assert s1.logs == map[] <==> s1.logs.Keys == {};
    assert s.logs == map[] <==> s.logs.Keys == {};
  }

  /** A newly registered observer has been told of each interface of the list once, and of nothing else. */
  lemma RegisterReplays(s: State, observer: Observer, scan: Interfaces, s': State, event: Event)
    requires Next(s, Register(observer, scan), s') && observer != 0 && observer !in s.logs
    requires Keyed(s.interfaces) && Keyed(scan)
    ensures observer in s'.logs
    ensures multiset(s'.logs[observer])[event]
         == if event.Added? && event.intfc.id in s'.interfaces && s'.interfaces[event.intfc.id] == event.intfc
            then 1 else 0
  {
    hide Waited, Registered, Keyed;
    var s1 :| Waited(s, scan, s1) && Registered(s1, observer, s');
    WaitTakesOver(s, scan, s1);
    RegistrationReplays(s1, observer, s', event);
    RegisterAdds(s, observer, scan, s');
  }

  /** The first query or registration sends every observer each difference between the lists once, and
      nothing else. */
  lemma FirstAnswerSends(s: State, call: Call, s': State, observer: Observer, event: Event)
    requires (call.Query? || call.Register?) && Next(s, call, s') && !s.poller.enumeratedOnce
    requires observer in s.logs && Keyed(s.interfaces) && Keyed(call.scan)
    ensures observer in s'.logs && SentExactly(s, call.scan, s', observer, event)
  {
    hide Waited, SentExactly, Keyed, Enumerates, Additions;
    var s1 :| Waited(s, call.scan, s1) &&
      if call.Query? then s' == s1.(poller := Noted(s1.poller, Answered)) else Registered(s1, call.observer, s');
    WaitSends(s, call.scan, s1, observer, event);
    assert s'.logs[observer] == s1.logs[observer];
    SameLog(s, call.scan, s1, s', observer, event);
  }

  lemma SameLog(s: State, interfaces: Interfaces, s': State, t': State, observer: Observer, event: Event)
    requires observer in s.logs && observer in s'.logs && observer in t'.logs && s'.logs[observer] == t'.logs[observer]
    ensures SentExactly(s, interfaces, s', observer, event) == SentExactly(s, interfaces, t', observer, event)
  {
  }

  /** An unregistered observer is gone, so that nothing is sent to it any more; nothing else changes but the
      thread, which ends with the last observer. */
  lemma UnregisterRemoves(s: State, observer: Observer, s': State)
    requires WellPolled(s) && Next(s, Unregister(observer), s')
    ensures s'.logs.Keys == s.logs.Keys - {observer} && s'.interfaces == s.interfaces
    ensures forall other :: other in s'.logs ==> s'.logs[other] == s.logs[other]
    ensures s'.poller.joinable <==> s'.logs != map[]
    ensures observer !in s.logs || s'.logs != map[] ==> s'.poller == s.poller
    ensures observer in s.logs && s'.logs == map[] ==>
      !s'.poller.enumeratedOnce && s'.poller.history == s.poller.history + [Stopped]
  {
    hide Running, Fresh, Orderly;
    UnregisteredPolls(s, observer);
  }

  // ---- the life of the polling thread ----

  /** Whether the thread was started last, and not stopped. */
  predicate Running(history: seq<Mark>) {
    history != [] &&
    var last := history[|history| - 1];
    last == Started || (last != Stopped && Running(history[..|history| - 1]))
  }

  /** Whether the interfaces were enumerated since the last stop. */
  predicate Fresh(history: seq<Mark>) {
    history != [] &&
    var last := history[|history| - 1];
    last == Enumerated || (last != Stopped && Fresh(history[..|history| - 1]))
  }

  predicate MayFollow(history: seq<Mark>, mark: Mark) {
    match mark
    case Started => !Running(history)
    case Stopped => Running(history)
    case Answered => Fresh(history)
    case Enumerated => true
  }

  /** Starts and stops alternate, beginning with a start, and no answer is older than the last stop. */
  ghost predicate Orderly(history: seq<Mark>) {
    forall i :: 0 <= i < |history| ==> MayFollow(history[..i], history[i])
  }

  lemma OrderlyAndOne(history: seq<Mark>, mark: Mark)
    requires Orderly(history) && MayFollow(history, mark)
    ensures Orderly(history + [mark])
    ensures Running(history + [mark]) == (mark == Started || (mark != Stopped && Running(history)))
    ensures Fresh(history + [mark]) == (mark == Enumerated || (mark != Stopped && Fresh(history)))
  {
    hide MayFollow;
    var longer := history + [mark];
    assert longer[..|history|] == history;
    forall i | 0 <= i < |longer|
      ensures MayFollow(longer[..i], longer[i])
    {
      if i < |history| {
        assert longer[..i] == history[..i];
      }
    }
  }

  /** The thread is joinable exactly while there are observers, and is never overwritten. */
  ghost predicate WellPolled(s: State) {
    var poller := s.poller;
    !poller.aborted && 0 !in s.logs &&
    (poller.joinable <==> s.logs != map[]) &&
    (poller.joinable ==> poller.enumeratedOnce && !poller.shouldTerminate) &&
    (poller.enumeratedOnce ==> Fresh(poller.history)) &&
    (poller.joinable <==> Running(poller.history)) &&
    Orderly(poller.history)
  }

  /** A refresh leaves alone who observes and whether the thread runs. */
  lemma RefreshedPolls(s: State, interfaces: Interfaces, s': State)
    requires WellPolled(s) && Refreshed(s, interfaces, s')
    ensures WellPolled(s') && s'.poller == s.poller && s'.logs.Keys == s.logs.Keys
  {
    hide Refresh, Running, Fresh, Orderly, SentToAll;
    var events :| Refresh(s.interfaces, interfaces, events) &&
      s' == State(interfaces, SentToAll(s.logs, events), s.poller);
    SentKeepsObservers(s.logs, events);
    assert 0 !in s'.logs.Keys;
  }

  lemma WaitedPolls(s: State, scan: Interfaces, s': State)
    requires WellPolled(s) && Waited(s, scan, s')
    ensures WellPolled(s') && s'.poller.enumeratedOnce && s'.logs.Keys == s.logs.Keys
  {
    hide Refreshed, Running, Fresh, Orderly;
    if !s.poller.enumeratedOnce {
      OrderlyAndOne(s.poller.history, Enumerated);
      RefreshedPolls(s.(poller := Noted(s.poller, Enumerated).(enumeratedOnce := true)), scan, s');
    }
  }

  lemma RegisteredPolls(s: State, observer: Observer, s': State)
    requires WellPolled(s) && s.poller.enumeratedOnce && Registered(s, observer, s')
    ensures WellPolled(s')
  {
    hide Additions, Enumerates, Running, Fresh, Orderly;
    var history := s.poller.history;
    OrderlyAndOne(history, Answered);
    if s.logs == map[] {
      OrderlyAndOne(history + [Answered], Started);
    }
  }

  lemma UnregisteredPolls(s: State, observer: Observer)
    requires WellPolled(s)
    ensures WellPolled(Unregistered(s, observer))
  {
    hide Running, Fresh, Orderly;
    if observer in s.logs {
      assert s.poller.joinable;
      OrderlyAndOne(s.poller.history, Stopped);
    }
  }

  lemma NextPolls(s: State, call: Call, s': State)
    requires WellPolled(s) && Next(s, call, s')
    ensures WellPolled(s')
  {
    hide Refreshed, Registered, Waited, Unregistered, Apply, Sent, SentToAll, Running, Fresh, Orderly;
    match call
    case Register(observer, scan) =>
      var s1 :| Waited(s, scan, s1) && Registered(s1, observer, s');
      WaitedPolls(s, scan, s1);
      RegisteredPolls(s1, observer, s');
    case Unregister(observer) =>
      UnregisteredPolls(s, observer);
    case Query(scan) =>
      var s1 :| Waited(s, scan, s1) && s' == s1.(poller := Noted(s1.poller, Answered));
      WaitedPolls(s, scan, s1);
      OrderlyAndOne(s1.poller.history, Answered);
    case Poll(scan) =>
      if s.poller.joinable && !s.poller.shouldTerminate {
        OrderlyAndOne(s.poller.history, Enumerated);
        RefreshedPolls(s.(poller := Noted(s.poller, Enumerated)), scan, s');
      }
    case Notify(update) =>
      NotifyIsRefresh(s, update, s');
      RefreshedPolls(s, Apply(s.interfaces, update), s');
  }

  /** In every run of calls that are made one at a time: starts and stops alternate, the thread is
      joinable exactly while there are observers, starting it never overwrites a joinable thread, and
      every query and every replay follows an enumeration that was made since the last stop. */
  lemma {:induction false} PollerLifecycle(states: seq<State>, calls: seq<Call>, i: nat)
    requires Run(states, calls) && i <= |calls|
    ensures WellPolled(states[i])
  {
    hide Next, WellPolled;
    if i > 0 {
      PollerLifecycle(states, calls, i - 1);
      NextPolls(states[i - 1], calls[i - 1], states[i]);
    } else {
      assert WellPolled(Initially()) by { StartsWell(); }
    }
  }

  lemma StartsWell()
    ensures WellPolled(Initially()) && Mirrored(Initially())
    ensures Initially().interfaces == map[] && Initially().logs == map[] && Initially().poller.history == []
  {
  }

  /** Once the last observer is gone, the next query or registration answers from a new enumeration,
      which replaces whatever the registry held. */
  lemma RestartEnumerates(s: State, last: Observer, s1: State, call: Call, s2: State)
    requires WellPolled(s) && s.logs.Keys == {last} && Next(s, Unregister(last), s1)
    requires (call.Query? || (call.Register? && call.observer != 0)) && Next(s1, call, s2)
    ensures s1.logs == map[] && !s1.poller.joinable && s2.interfaces == call.scan
    ensures Stopped in s1.poller.history && Answered in s2.poller.history[|s1.poller.history|..]
  {
    hide Refresh, Additions, Enumerates, Running, Fresh, Orderly;
    assert s.logs != map[] && s1.logs == map[] by {
      assert s.logs.Keys - {last} == {};
    }
    assert s1.poller.history == s.poller.history + [Stopped];
    var history := s1.poller.history;
    var waited :| Waited(s1, call.scan, waited) &&
      if call.Query? then s2 == waited.(poller := Noted(waited.poller, Answered))
      else Registered(waited, call.observer, s2);
    assert waited.poller.history == history + [Enumerated] && waited.logs == map[];
    assert s2.poller.history[|history| + 1] == Answered;
    assert s2.poller.history[|history|..][1] == Answered;
  }

  /** What `Fresh` says of each answer: there is an enumeration before it, with no stop in between. */
  lemma {:induction false} FreshMeans(history: seq<Mark>)
    ensures Fresh(history)
      <==> exists j :: 0 <= j < |history| && history[j] == Enumerated
                       && forall k :: j < k < |history| ==> history[k] != Stopped
  {
    if history != [] {
      var n := |history| - 1;
      var front := history[..n];
      FreshMeans(front);
      assert forall k :: 0 <= k < n ==> front[k] == history[k];
      if Fresh(front) && history[n] != Stopped {
        var j :| 0 <= j < n && front[j] == Enumerated && forall k :: j < k < n ==> front[k] != Stopped;
        assert history[j] == Enumerated && forall k :: j < k < |history| ==> history[k] != Stopped;
      }
    }
  }
}
