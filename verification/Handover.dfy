/** Starting and stopping the polling thread when calls overlap. The set of observers changes under the
    lock, but the delegate is told after the lock is released, so what it is told may be overtaken. */
module Handover {
  import opened RegistryMachine

  datatype Told = First | Last

  /** `pending` holds what the delegate has not been told yet, in the order of the changes. */
  datatype Situation = Situation(observers: set<Observer>, pending: seq<Told>, poller: Poller)

  datatype Move =
    | Enter(observer: Observer)
    | Leave(observer: Observer)
    | Tell(k: nat)

  function Quiet(): Situation {
    Situation({}, [], Initially().poller)
  }

  /** The locked part of a registration, the locked part of its undoing, or one notification. */
  function After(s: Situation, move: Move): Situation {
    match move
    case Enter(observer) =>
      if observer == 0 || observer in s.observers then s
      else s.(observers := s.observers + {observer},
              pending := s.pending + if s.observers == {} then [First] else [])
    case Leave(observer) =>
      if observer == 0 || observer !in s.observers then s
      else
        var rest := s.observers - {observer};
        s.(observers := rest, pending := s.pending + if rest == {} then [Last] else [])
    case Tell(k) =>
      if k >= |s.pending| then s
      else
        s.(pending := s.pending[..k] + s.pending[k + 1..],
           poller := if s.pending[k] == First then StartThread(s.poller) else StopThread(s.poller))
  }

  function AfterAll(moves: seq<Move>): Situation {
    if moves == [] then Quiet() else After(AfterAll(moves[..|moves| - 1]), moves[|moves| - 1])
  }

  // ---- exactly when the thread and the observers stay in step ----

  /** The delegate can be told this: it starts no thread over a joinable one and stops none that is not. */
  predicate Fits(s: Situation, move: Move) {
    move.Tell? && move.k < |s.pending| ==> (s.pending[move.k] == First <==> !s.poller.joinable)
  }

  function Pending(s: Situation, told: Told): nat {
    multiset(s.pending)[told]
  }

  /** By how much the thread, once all that is pending is told, would differ from what is wanted. */
  function Balance(s: Situation): int {
    (if s.poller.joinable then 1 else 0) + Pending(s, First) - Pending(s, Last) - if s.observers != {} then 1 else 0
  }

  predicate InStep(s: Situation) {
    !s.poller.aborted && Balance(s) == 0
  }

  lemma BalanceAfter(s: Situation, move: Move)
    ensures After(s, move).poller.aborted <==> s.poller.aborted || (!Fits(s, move) && s.pending[move.k] == First)
    ensures Balance(After(s, move))
         == Balance(s) + if Fits(s, move) then 0 else if s.pending[move.k] == First then -1 else 1
  {
    hide After, Balance;
    match move
    case Enter(observer) => BalanceAfterEnter(s, observer);
    case Leave(observer) => BalanceAfterLeave(s, observer);
    case Tell(k) => BalanceAfterTell(s, k);
  }

  lemma BalanceAfterEnter(s: Situation, observer: Observer)
    ensures After(s, Enter(observer)).poller == s.poller && Balance(After(s, Enter(observer))) == Balance(s)
  {
    if observer != 0 && observer !in s.observers {
      assert observer in After(s, Enter(observer)).observers;
    }
  }

  lemma BalanceAfterLeave(s: Situation, observer: Observer)
    ensures After(s, Leave(observer)).poller == s.poller && Balance(After(s, Leave(observer))) == Balance(s)
  {
    if observer != 0 && observer in s.observers {
      assert s.observers != {};
    }
  }

  lemma BalanceAfterTell(s: Situation, k: nat)
    ensures After(s, Tell(k)).poller.aborted
      <==> s.poller.aborted || (!Fits(s, Tell(k)) && s.pending[k] == First)
    ensures Balance(After(s, Tell(k)))
         == Balance(s) + if Fits(s, Tell(k)) then 0 else if s.pending[k] == First then -1 else 1
  {
    hide Pending;
    if k < |s.pending| {
      PendingWithout(s, k, First);
      PendingWithout(s, k, Last);
    }
  }

  lemma PendingWithout(s: Situation, k: nat, told: Told)
    requires k < |s.pending|
    ensures Pending(After(s, Tell(k)), told) == Pending(s, told) - if s.pending[k] == told then 1 else 0
  {
    assert s.pending == s.pending[..k] + [s.pending[k]] + s.pending[k + 1..];
  }

  /** A change of the set of observers keeps thread and observers in step; telling the delegate keeps them
      in step if and only if what it is told fits. */
  lemma InStepAfter(s: Situation, move: Move)
    requires InStep(s)
    ensures InStep(After(s, move)) <==> Fits(s, move)
  {
    hide After, Balance;
    BalanceAfter(s, move);
  }

  /** How often the delegate was told something that did not fit. */
  function Misfits(moves: seq<Move>, told: Told): nat {
    if moves == [] then 0
    else
      var front, last := moves[..|moves| - 1], moves[|moves| - 1];
      Misfits(front, told)
      + if !Fits(AfterAll(front), last) && AfterAll(front).pending[last.k] == told then 1 else 0
  }

  lemma {:induction false} MisfitsShow(moves: seq<Move>)
    ensures Balance(AfterAll(moves)) == Misfits(moves, Last) - Misfits(moves, First)
    ensures AfterAll(moves).poller.aborted <==> Misfits(moves, First) > 0
  {
    hide After, Fits;
    if moves != [] {
      MisfitsShow(moves[..|moves| - 1]);
      BalanceAfter(AfterAll(moves[..|moves| - 1]), moves[|moves| - 1]);
    }
  }

  ghost predicate AllFit(moves: seq<Move>) {
    forall i :: 0 <= i < |moves| ==> Fits(AfterAll(moves[..i]), moves[i])
  }

  lemma {:induction false} AllFitMeans(moves: seq<Move>)
    ensures AllFit(moves) <==> Misfits(moves, First) == 0 && Misfits(moves, Last) == 0
  {
    hide AfterAll, Fits;
    if moves != [] {
      var n := |moves| - 1;
      var front := moves[..n];
      AllFitMeans(front);
      assert forall i :: 0 <= i < n ==> front[..i] == moves[..i] && front[i] == moves[i];
    }
  }

  /** No thread was overwritten, and it runs exactly if there are observers. */
  predicate Safe(s: Situation) {
    !s.poller.aborted && (s.poller.joinable <==> s.observers != {})
  }

  /** However the calls overlap: once the delegate has been told everything, all is well if and only if
      everything that it was told did fit at the time. */
  lemma SafeExactly(moves: seq<Move>)
    requires AfterAll(moves).pending == []
    ensures Safe(AfterAll(moves)) <==> AllFit(moves)
  {
    hide AfterAll, Misfits, AllFit;
    MisfitsShow(moves);
    AllFitMeans(moves);
  }

  // ---- telling in order ----

  /** Every notification is given before those of later changes. */
  predicate InOrder(moves: seq<Move>) {
    forall i :: 0 <= i < |moves| && moves[i].Tell? ==> moves[i].k == 0
  }

  /** Whether the thread is to run after `n` more notifications. */
  predicate RunsAfter(running: bool, n: nat) {
    if n % 2 == 0 then running else !running
  }

  /** The pending notifications take turns, and lead to a thread exactly if there are observers. */
  ghost predicate Consistent(s: Situation) {
    !s.poller.aborted && 0 !in s.observers &&
    (forall i :: 0 <= i < |s.pending| ==> (s.pending[i] == First <==> !RunsAfter(s.poller.joinable, i))) &&
    (RunsAfter(s.poller.joinable, |s.pending|) <==> s.observers != {})
  }

  /** Changing the set of observers keeps this; telling the delegate keeps it exactly if it is told
      what has been pending longest. In another order it may still come out right, see `SafeExactly`. */
  lemma ConsistentAfter(s: Situation, move: Move)
    requires Consistent(s)
    ensures Consistent(After(s, move)) <==> !(move.Tell? && 0 < move.k < |s.pending|)
  {
    if move.Tell? && move.k < |s.pending| {
      TellOne(s, move.k);
    }
  }

  lemma TellOne(s: Situation, k: nat)
    requires Consistent(s) && k < |s.pending|
    ensures Consistent(After(s, Tell(k))) <==> k == 0
  {
    hide StartThread, StopThread;
    var next := After(s, Tell(k));
    TellMeans(s, k);
    if k == 0 {
      assert forall i :: 0 <= i < |next.pending| ==> next.pending[i] == s.pending[i + 1];
    } else {
      assert s.pending[k] == First <==> !RunsAfter(s.poller.joinable, k);
      if k % 2 == 1 {
        assert next.poller.joinable == s.poller.joinable && |next.pending| == |s.pending| - 1;
      } else {
        assert next.poller.joinable == !s.poller.joinable && next.pending[0] == s.pending[0];
        assert s.pending[0] == First <==> !RunsAfter(s.poller.joinable, 0);
      }
    }
  }

  lemma TellMeans(s: Situation, k: nat)
    requires k < |s.pending|
    ensures var next := After(s, Tell(k)).poller;
      next.joinable == (s.pending[k] == First) &&
      next.aborted == (s.poller.aborted || (s.pending[k] == First && s.poller.joinable))
  {
  }

  lemma OldestFits(s: Situation, move: Move)
    requires Consistent(s) && (move.Tell? ==> move.k == 0)
    ensures Fits(s, move)
  {
    assert RunsAfter(s.poller.joinable, 0) == s.poller.joinable;
  }

  /** With notifications in order, however the calls overlap: the thread is never assigned over a
      joinable one, and once all is told it is joinable exactly if there are observers. */
  lemma {:induction false} InOrderIsSafe(moves: seq<Move>)
    requires InOrder(moves)
    ensures Consistent(AfterAll(moves))
    ensures AllFit(moves) && (AfterAll(moves).pending == [] ==> Safe(AfterAll(moves)))
  {
    hide After, Fits;
    if moves != [] {
      var front := moves[..|moves| - 1];
      InOrderIsSafe(front);
      ConsistentAfter(AfterAll(front), moves[|moves| - 1]);
      OldestFits(AfterAll(front), moves[|moves| - 1]);
      assert forall i :: 0 <= i < |front| ==> front[..i] == moves[..i] && front[i] == moves[i];
    }
  }

  /** Out of order it fails: a registration overtaken by its own undoing leaves a thread without
      observers. */
  lemma OutOfOrderStrands(observer: Observer)
    requires observer != 0
    ensures var s := AfterAll([Enter(observer), Leave(observer), Tell(1), Tell(0)]);
      s.pending == [] && s.observers == {} && s.poller.joinable && !s.poller.aborted
  {
    hide After;
    var entered := [Enter(observer)];
    var left := entered + [Leave(observer)];
    var told := left + [Tell(1)];
    Step([], Enter(observer));
    assert [] + [Enter(observer)] == entered;
    Step(entered, Leave(observer));
    Step(left, Tell(1));
    Step(told, Tell(0));
    assert told + [Tell(0)] == [Enter(observer), Leave(observer), Tell(1), Tell(0)];
    Overtaken(observer);
  }

  lemma Overtaken(observer: Observer)
    requires observer != 0
    ensures var left := After(After(Quiet(), Enter(observer)), Leave(observer));
      var s := After(After(left, Tell(1)), Tell(0));
      s.pending == [] && s.observers == {} && s.poller.joinable && !s.poller.aborted
  {
    var left := After(After(Quiet(), Enter(observer)), Leave(observer));
    assert {observer} - {observer} == {};
    assert left.observers == {} && left.pending == [First, Last];
    assert After(left, Tell(1)).pending == [First];
  }

  /** The next registration then assigns a thread over the joinable one. */
  lemma StrandedAborts(moves: seq<Move>, observer: Observer)
    requires observer != 0
    requires var s := AfterAll(moves); s.pending == [] && s.observers == {} && s.poller.joinable
    ensures AfterAll(moves + [Enter(observer)] + [Tell(0)]).poller.aborted
  {
    Step(moves, Enter(observer));
    Step(moves + [Enter(observer)], Tell(0));
  }

  lemma Step(moves: seq<Move>, move: Move)
    ensures AfterAll(moves + [move]) == After(AfterAll(moves), move)
  {
    assert (moves + [move])[..|moves|] == moves;
  }

  // ---- the observers ----

  /** Entering and leaving change the set of observers and nothing else but what is pending; telling changes
      the thread and what is pending, by the one notification that is told. */
  lemma AfterMeans(s: Situation, observer: Observer, k: nat)
    ensures After(s, Enter(observer)).observers == s.observers + ({observer} - {0})
    ensures 0 !in s.observers ==> After(s, Leave(observer)).observers == s.observers - {observer}
    ensures After(s, Enter(observer)).poller == s.poller && After(s, Leave(observer)).poller == s.poller
    ensures After(s, Tell(k)).observers == s.observers
    ensures k >= |s.pending| ==> After(s, Tell(k)) == s
    ensures k < |s.pending| ==>
      After(s, Tell(k)).poller.joinable == (s.pending[k] == First) &&
      After(s, Tell(k)).pending == s.pending[..k] + s.pending[k + 1..]
  {
  }
}
