/** The registry of interfaces and the delegate that polls the operating system, as the program updates
    them in place. Each method is a step of the state machine of `RegistryMachine`. */
module Registry {
  import opened Common
  import opened InterfaceEvents
  import opened RegistryMachine
  import opened Addresses
  import opened Subnets

  // ---- one more turn of each loop ----

  lemma SentNothing(logs: Logs)
    ensures SentToAll(logs, []) == logs
  {
    assert forall observer :: observer in logs ==> logs[observer] + [] == logs[observer];
  }

  lemma SentInTurn(logs: Logs, a: seq<Event>, b: seq<Event>)
    ensures SentToAll(SentToAll(logs, a), b) == SentToAll(logs, a + b)
  {
    forall observer | observer in logs
      ensures logs[observer] + a + b == logs[observer] + (a + b)
    {
    }
  }

  lemma FieldsInOrder(intfc: Interface)
    ensures FieldsOf(intfc)[0] == Enabled(intfc.isEnabled)
    ensures FieldsOf(intfc)[1] == Connected(intfc.isConnected)
    ensures FieldsOf(intfc)[2] == Alias(intfc.alias)
    ensures FieldsOf(intfc)[3] == IPAddressInfos(intfc.ipAddressInfos)
    ensures FieldsOf(intfc)[4] == Gateways(intfc.gateways)
  {
  }

  lemma NoFieldYet(logs: Logs, previous: Interface, current: Interface)
    ensures SentToAll(logs, ChangesUpTo(previous, current, 0)) == logs
  {
    SentNothing(logs);
  }

  lemma OneMoreField(logs: Logs, previous: Interface, current: Interface, k: nat)
    requires 0 < k <= 5
    ensures var sent, field := SentToAll(logs, ChangesUpTo(previous, current, k - 1)), FieldsOf(current)[k - 1];
      SentToAll(logs, ChangesUpTo(previous, current, k))
      == if FieldsOf(previous)[k - 1] != field then SentToAll(sent, [Changed(current, field)]) else sent
  {
    hide FieldsOf, SentToAll;
    var before, field := ChangesUpTo(previous, current, k - 1), FieldsOf(current)[k - 1];
    SentInTurn(logs, before, [Changed(current, field)]);
    assert before + [] == before;
  }

  lemma OneMoreRemoved(before: Interfaces, order: seq<string>, name: string)
    requires name in before && forall n :: n in order ==> n in before
    ensures Removals(before, order + [name]) == Removals(before, order) + [Removed(before[name])]
  {
    assert (order + [name])[..|order|] == order;
  }

  lemma OneMoreAdded(after: Interfaces, order: seq<string>, name: string)
    requires name in after && forall n :: n in order ==> n in after
    ensures Additions(after, order + [name]) == Additions(after, order) + [Added(after[name])]
  {
    assert (order + [name])[..|order|] == order;
  }

  lemma OneMoreKept(before: Interfaces, after: Interfaces, order: seq<string>, name: string)
    requires name in before && name in after && forall n :: n in order ==> n in before && n in after
    ensures Changes(before, after, order + [name])
         == Changes(before, after, order) + ChangeEvents(before[name], after[name])
  {
    assert (order + [name])[..|order|] == order;
  }

  class NetworkInterfaceHelper {
    var observers: set<Observer>
    var networkInterfaces: Interfaces
    var osDependentDelegate: OsDependentDelegate?
    /** What each registered observer got since it was registered. */
    ghost var received: Logs

    ghost predicate Linked()
      reads this, osDependentDelegate
    {
      osDependentDelegate != null && osDependentDelegate.commonDelegate == this && received.Keys == observers
    }

    /** The state of the machine that the two objects hold. */
    ghost function View(): State
      reads this, osDependentDelegate
      requires osDependentDelegate != null
    {
      State(networkInterfaces, received, osDependentDelegate.View())
    }

    ghost predicate Valid()
      reads this, osDependentDelegate
    {
      Linked() && WellPolled(View())
    }

    constructor ()
      ensures Valid() && fresh(osDependentDelegate) && View() == Initially()
      ensures observers == {} && networkInterfaces == map[] && !osDependentDelegate.observerThread
    {
      observers := {};
      networkInterfaces := map[];
      received := map[];
      osDependentDelegate := null;
      new;
      osDependentDelegate := new OsDependentDelegate(this);
      StartsWell();
    }

    // ---- the loops ----

    /** Calls each observer, in some order. */
    method NotifyObservers(event: Event)
      requires received.Keys == observers
      modifies this`received
      ensures received.Keys == observers && received == SentToAll(old(received), [event])
    {
      var remaining := observers;
      while remaining != {}
        invariant remaining <= observers
        invariant received.Keys == observers
        invariant forall obs :: obs in observers ==>
          received[obs] == old(received)[obs] + if obs in remaining then [] else [event]
      {
        var obs :| obs in remaining;
        received := received[obs := received[obs] + [event]];
        remaining := remaining - {obs};
      }
    }

    /** Tells one observer of all interfaces. */
    method Replay(observer: Observer) returns (ghost order: seq<string>)
      requires observer in received && received[observer] == [] && received.Keys == observers
      modifies this`received
      ensures Enumerates(order, networkInterfaces.Keys)
      ensures received == old(received)[observer := Additions(networkInterfaces, order)]
    {
      var names := networkInterfaces.Keys;
      order := [];
      while names != {}
        invariant names <= networkInterfaces.Keys
        invariant Enumerates(order, networkInterfaces.Keys - names)
        invariant received == old(received)[observer := Additions(networkInterfaces, order)]
      {
        var name :| name in names;
        received := received[observer := received[observer] + [Added(networkInterfaces[name])]];
        OneMoreAdded(networkInterfaces, order, name);
        order, names := order + [name], names - {name};
      }
    }

    method AllInterfaces() returns (visited: seq<Interface>)
      ensures exists order ::
        Enumerates(order, networkInterfaces.Keys) && |visited| == |order| &&
        forall i :: 0 <= i < |order| ==> visited[i] == networkInterfaces[order[i]]
    {
      var names := networkInterfaces.Keys;
      ghost var order: seq<string> := [];
      visited := [];
      while names != {}
        invariant names <= networkInterfaces.Keys
        invariant Enumerates(order, networkInterfaces.Keys - names)
        invariant |visited| == |order|
        invariant forall i :: 0 <= i < |order| ==>
          order[i] in networkInterfaces && visited[i] == networkInterfaces[order[i]]
      {
        var name :| name in names;
        order, names := order + [name], names - {name};
        visited := visited + [networkInterfaces[name]];
      }
    }

    method NotifyRemoved(interfaces: Interfaces) returns (ghost removed: seq<string>)
      requires received.Keys == observers
      modifies this`received
      ensures received.Keys == observers
      ensures Enumerates(removed, networkInterfaces.Keys - interfaces.Keys)
      ensures received == SentToAll(old(received), Removals(networkInterfaces, removed))
    {
      var names := networkInterfaces.Keys;
      removed := [];
      SentNothing(received);
      while names != {}
        invariant names <= networkInterfaces.Keys
        invariant Enumerates(removed, networkInterfaces.Keys - interfaces.Keys - names)
        invariant received.Keys == observers
        invariant received == SentToAll(old(received), Removals(networkInterfaces, removed))
      {
        var name :| name in names;
        if name !in interfaces {
          NotifyObservers(Removed(networkInterfaces[name]));
          SentInTurn(old(received), Removals(networkInterfaces, removed), [Removed(networkInterfaces[name])]);
          OneMoreRemoved(networkInterfaces, removed, name);
          removed := removed + [name];
        }
        names := names - {name};
      }
    }

    method NotifyAdded(interfaces: Interfaces) returns (ghost added: seq<string>)
      requires received.Keys == observers
      modifies this`received
      ensures received.Keys == observers
      ensures Enumerates(added, interfaces.Keys - networkInterfaces.Keys)
      ensures received == SentToAll(old(received), Additions(interfaces, added))
    {
      var names := interfaces.Keys;
      added := [];
      SentNothing(received);
      while names != {}
        invariant names <= interfaces.Keys
        invariant Enumerates(added, interfaces.Keys - networkInterfaces.Keys - names)
        invariant received.Keys == observers
        invariant received == SentToAll(old(received), Additions(interfaces, added))
      {
        var name :| name in names;
        if name !in networkInterfaces {
          NotifyObservers(Added(interfaces[name]));
          SentInTurn(old(received), Additions(interfaces, added), [Added(interfaces[name])]);
          OneMoreAdded(interfaces, added, name);
          added := added + [name];
        }
        names := names - {name};
      }
    }

    /** Compares the monitored fields one after the other. */
    method NotifyDifferences(previousIntfc: Interface, newIntfc: Interface)
      requires received.Keys == observers
      modifies this`received
      ensures received.Keys == observers
      ensures received == SentToAll(old(received), ChangeEvents(previousIntfc, newIntfc))
    {
      hide ChangesUpTo, SentToAll, FieldsOf;
      ghost var logs := received;
      NoFieldYet(logs, previousIntfc, newIntfc);
      OneMoreField(logs, previousIntfc, newIntfc, 1);
      FieldsInOrder(previousIntfc);
      FieldsInOrder(newIntfc);
      if previousIntfc.isEnabled != newIntfc.isEnabled {
        NotifyObservers(Changed(newIntfc, Enabled(newIntfc.isEnabled)));
      }
      OneMoreField(logs, previousIntfc, newIntfc, 2);
      if previousIntfc.isConnected != newIntfc.isConnected {
        NotifyObservers(Changed(newIntfc, Connected(newIntfc.isConnected)));
      }
      OneMoreField(logs, previousIntfc, newIntfc, 3);
      if previousIntfc.alias != newIntfc.alias {
        NotifyObservers(Changed(newIntfc, Alias(newIntfc.alias)));
      }
      OneMoreField(logs, previousIntfc, newIntfc, 4);
      if previousIntfc.ipAddressInfos != newIntfc.ipAddressInfos {
        NotifyObservers(Changed(newIntfc, IPAddressInfos(newIntfc.ipAddressInfos)));
      }
      OneMoreField(logs, previousIntfc, newIntfc, 5);
      if previousIntfc.gateways != newIntfc.gateways {
        NotifyObservers(Changed(newIntfc, Gateways(newIntfc.gateways)));
      }
    }

    method NotifyChanged(interfaces: Interfaces) returns (ghost kept: seq<string>)
      requires received.Keys == observers
      modifies this`received
      ensures received.Keys == observers
      ensures Enumerates(kept, networkInterfaces.Keys * interfaces.Keys)
      ensures received == SentToAll(old(received), Changes(networkInterfaces, interfaces, kept))
    {
      hide ChangeEvents;
      var names := networkInterfaces.Keys;
      kept := [];
      SentNothing(received);
      while names != {}
        invariant names <= networkInterfaces.Keys
        invariant Enumerates(kept, networkInterfaces.Keys * interfaces.Keys - names)
        invariant received.Keys == observers
        invariant received == SentToAll(old(received), Changes(networkInterfaces, interfaces, kept))
      {
        var name :| name in names;
        if name in interfaces {
          NotifyDifferences(networkInterfaces[name], interfaces[name]);
          SentInTurn(old(received), Changes(networkInterfaces, interfaces, kept),
                     ChangeEvents(networkInterfaces[name], interfaces[name]));
          OneMoreKept(networkInterfaces, interfaces, kept, name);
          kept := kept + [name];
        }
        names := names - {name};
      }
    }

    // ---- what the delegate calls ----

    /** The list replaces the old one; every observer gets the differences. */
    method OnNewInterfacesList(interfaces: Interfaces)
      requires received.Keys == observers
      modifies this`networkInterfaces, this`received
      ensures received.Keys == observers && networkInterfaces == interfaces
      ensures exists events ::
        Refresh(old(networkInterfaces), interfaces, events) && received == SentToAll(old(received), events)
    {
      hide Removals, Additions, Changes;
      ghost var removed := NotifyRemoved(interfaces);
      ghost var added := NotifyAdded(interfaces);
      ghost var kept := NotifyChanged(interfaces);
      ghost var before, logs := networkInterfaces, old(received);
      ghost var removals, additions, changes :=
        Removals(before, removed), Additions(interfaces, added), Changes(before, interfaces, kept);
      SentInTurn(logs, removals, additions);
      SentInTurn(logs, removals + additions, changes);
      assert RefreshIn(before, interfaces, removals + additions + changes, removed, added, kept);
      networkInterfaces := interfaces;
    }

    method OnInterfaceAdded(interfaceName: string, intfc: Interface)
      requires Valid()
      modifies this`networkInterfaces, this`received
      ensures Valid() && Next(old(View()), Notify(InterfaceAdded(interfaceName, intfc)), View())
    {
      hide Running, Fresh, Orderly;
      SentNothing(received);
      if interfaceName !in networkInterfaces {
        networkInterfaces := networkInterfaces[interfaceName := intfc];
        NotifyObservers(Added(intfc));
      }
    }

    method OnInterfaceRemoved(interfaceName: string)
      requires Valid()
      modifies this`networkInterfaces, this`received
      ensures Valid() && Next(old(View()), Notify(InterfaceRemoved(interfaceName)), View())
    {
      hide Running, Fresh, Orderly;
      SentNothing(received);
      if interfaceName in networkInterfaces {
        NotifyObservers(Removed(networkInterfaces[interfaceName]));
        networkInterfaces := networkInterfaces - {interfaceName};
      }
    }

    method OnEnabledStateChanged(interfaceName: string, isEnabled: bool)
      requires Valid()
      modifies this`networkInterfaces, this`received
      ensures Valid() && Next(old(View()), Notify(FieldChanged(interfaceName, Enabled(isEnabled))), View())
    {
      hide Running, Fresh, Orderly;
      SentNothing(received);
      if interfaceName in networkInterfaces {
        var intfc := networkInterfaces[interfaceName];
        if intfc.isEnabled != isEnabled {
          intfc := intfc.(isEnabled := isEnabled);
          networkInterfaces := networkInterfaces[interfaceName := intfc];
          NotifyObservers(Changed(intfc, Enabled(intfc.isEnabled)));
        }
      }
    }

    method OnConnectedStateChanged(interfaceName: string, isConnected: bool)
      requires Valid()
      modifies this`networkInterfaces, this`received
      ensures Valid() && Next(old(View()), Notify(FieldChanged(interfaceName, Connected(isConnected))), View())
    {
      hide Running, Fresh, Orderly;
      SentNothing(received);
      if interfaceName in networkInterfaces {
        var intfc := networkInterfaces[interfaceName];
        if intfc.isConnected != isConnected {
          intfc := intfc.(isConnected := isConnected);
          networkInterfaces := networkInterfaces[interfaceName := intfc];
          NotifyObservers(Changed(intfc, Connected(intfc.isConnected)));
        }
      }
    }

    method OnAliasChanged(interfaceName: string, alias: string)
      requires Valid()
      modifies this`networkInterfaces, this`received
      ensures Valid() && Next(old(View()), Notify(FieldChanged(interfaceName, Alias(alias))), View())
    {
      hide Running, Fresh, Orderly;
      SentNothing(received);
      if interfaceName in networkInterfaces {
        var intfc := networkInterfaces[interfaceName];
        if intfc.alias != alias {
          intfc := intfc.(alias := alias);
          networkInterfaces := networkInterfaces[interfaceName := intfc];
          NotifyObservers(Changed(intfc, Alias(intfc.alias)));
        }
      }
    }

    method OnIPAddressInfosChanged(interfaceName: string, ipAddressInfos: seq<IPAddressInfo>)
      requires Valid()
      modifies this`networkInterfaces, this`received
      ensures Valid() && Next(old(View()), Notify(FieldChanged(interfaceName, IPAddressInfos(ipAddressInfos))), View())
    {
      hide Running, Fresh, Orderly;
      SentNothing(received);
      if interfaceName in networkInterfaces {
        var intfc := networkInterfaces[interfaceName];
        if intfc.ipAddressInfos != ipAddressInfos {
          intfc := intfc.(ipAddressInfos := ipAddressInfos);
          networkInterfaces := networkInterfaces[interfaceName := intfc];
          NotifyObservers(Changed(intfc, IPAddressInfos(intfc.ipAddressInfos)));
        }
      }
    }

    method OnGatewaysChanged(interfaceName: string, gateways: seq<Address>)
      requires Valid()
      modifies this`networkInterfaces, this`received
      ensures Valid() && Next(old(View()), Notify(FieldChanged(interfaceName, Gateways(gateways))), View())
    {
      hide Running, Fresh, Orderly;
      SentNothing(received);
      if interfaceName in networkInterfaces {
        var intfc := networkInterfaces[interfaceName];
        if intfc.gateways != gateways {
          intfc := intfc.(gateways := gateways);
          networkInterfaces := networkInterfaces[interfaceName := intfc];
          NotifyObservers(Changed(intfc, Gateways(intfc.gateways)));
        }
      }
    }

    // ---- what users call ----

    /** Calls the handler, unless it is null, for each interface; the result is what it was called with. */
    method EnumerateInterfaces(hasHandler: bool, scan: Interfaces) returns (visited: seq<Interface>)
      requires Valid()
      modifies this, osDependentDelegate
      ensures Valid() && osDependentDelegate == old(osDependentDelegate)
      ensures if hasHandler then Next(old(View()), Query(scan), View()) else visited == [] && View() == old(View())
      ensures hasHandler ==> exists order ::
        Enumerates(order, networkInterfaces.Keys) && |visited| == |order| &&
        forall i :: 0 <= i < |order| ==> visited[i] == networkInterfaces[order[i]]
    {
      hide Refreshed, Running, Fresh, Orderly, Additions;
      if !hasHandler {
        return [];
      }
      ghost var before := View();
      osDependentDelegate.WaitForFirstEnumeration(scan);
      ghost var waited := View();
      visited := AllInterfaces();
      osDependentDelegate.NoteAnswer();
      assert Next(before, Query(scan), View()) by {
        assert Waited(before, scan, waited);
      }
      NextPolls(before, Query(scan), View());
    }

    method GetInterfaceByName(name: string, scan: Interfaces) returns (r: Result<Interface>)
      requires Valid()
      modifies this, osDependentDelegate
      ensures Valid() && osDependentDelegate == old(osDependentDelegate)
      ensures Next(old(View()), Query(scan), View())
      ensures r == if name in networkInterfaces then Ok(networkInterfaces[name]) else InvalidArgument
    {
      hide Refreshed, Running, Fresh, Orderly;
      ghost var before := View();
      osDependentDelegate.WaitForFirstEnumeration(scan);
      ghost var waited := View();
      osDependentDelegate.NoteAnswer();
      assert Next(before, Query(scan), View()) by {
        assert Waited(before, scan, waited);
      }
      NextPolls(before, Query(scan), View());
      if name !in networkInterfaces {
        return InvalidArgument;
      }
      return Ok(networkInterfaces[name]);
    }

    /** Registration after the wait. */
    method RegisterNow(observer: Observer)
      requires Valid()
      modifies this`observers, this`received, osDependentDelegate
      ensures Linked() && Registered(old(View()), observer, View())
    {
      hide Running, Fresh, Orderly, Additions;
      if observer == 0 {
        return;
      }
      if observer in observers {
        return;
      }
      var isFirst := observers == {};
      observers := observers + {observer};
      received := received[observer := []];
      ghost var order := Replay(observer);
      assert Enumerates(order, networkInterfaces.Keys);
      osDependentDelegate.NoteAnswer();
      if isFirst {
        osDependentDelegate.OnFirstObserverRegistered();
      }
    }

    method RegisterObserver(observer: Observer, scan: Interfaces)
      requires Valid()
      modifies this, osDependentDelegate
      ensures Valid() && osDependentDelegate == old(osDependentDelegate)
      ensures Next(old(View()), Register(observer, scan), View())
    {
      hide Refreshed, Running, Fresh, Orderly;
      ghost var before := View();
      osDependentDelegate.WaitForFirstEnumeration(scan);
      ghost var waited := View();
      WaitedPolls(before, scan, waited);
      RegisterNow(observer);
      assert Next(before, Register(observer, scan), View()) by {
        assert Waited(before, scan, waited) && Registered(waited, observer, View());
      }
      NextPolls(before, Register(observer, scan), View());
    }

    method UnregisterObserver(observer: Observer)
      requires Valid()
      modifies this`observers, this`received, osDependentDelegate
      ensures Valid()
      ensures Next(old(View()), Unregister(observer), View())
    {
      hide Running, Fresh, Orderly;
      ghost var before := View();
      if observer == 0 {
        return;
      }
      if observer !in observers {
        return;
      }
      observers := observers - {observer};
      received := received - {observer};
      var isLast := observers == {};
      if isLast {
        assert received == map[];
        osDependentDelegate.OnLastObserverUnregistered();
      }
      UnregisteredPolls(before, observer);
    }
  }

  /** The delegate of the systems that are polled. */
  class OsDependentDelegate {
    const commonDelegate: NetworkInterfaceHelper
    /** Whether the thread object holds a thread. */
    var observerThread: bool
    var shouldTerminate: bool
    var enumeratedOnce: bool
    ghost var history: seq<Mark>

    ghost function View(): Poller
      reads this
    {
      Poller(observerThread, shouldTerminate, enumeratedOnce, false, history)
    }

    constructor (commonDelegate: NetworkInterfaceHelper)
      ensures this.commonDelegate == commonDelegate && View() == Initially().poller
    {
      this.commonDelegate := commonDelegate;
      observerThread, shouldTerminate, enumeratedOnce, history := false, false, false, [];
    }

    /** Notes that a query or a replay is answered from the list as it is. */
    ghost method NoteAnswer()
      modifies this`history
      ensures View() == Noted(old(View()), Answered)
    {
      history := history + [Answered];
    }

    method WaitForFirstEnumeration(scan: Interfaces)
      requires commonDelegate.osDependentDelegate == this && commonDelegate.Linked()
      modifies this`enumeratedOnce, this`history, commonDelegate`networkInterfaces, commonDelegate`received
      ensures commonDelegate.Linked()
      ensures Waited(old(commonDelegate.View()), scan, commonDelegate.View())
    {
      hide Refresh;
      if !enumeratedOnce {
        history := history + [Enumerated];
        commonDelegate.OnNewInterfacesList(scan);
        enumeratedOnce := true;
      }
    }

    /** Assigning a thread over a joinable one would end the program. */
    method OnFirstObserverRegistered()
      requires !observerThread
      modifies this`shouldTerminate, this`observerThread, this`history
      ensures View() == StartThread(old(View()))
    {
      history := history + [Started];
      shouldTerminate := false;
      observerThread := true;
    }

    method TerminateObserverThread()
      modifies this`shouldTerminate, this`observerThread, this`enumeratedOnce
      ensures shouldTerminate && !observerThread
      ensures enumeratedOnce == (old(enumeratedOnce) && !old(observerThread))
    {
      shouldTerminate := true;
      if observerThread {
        observerThread := false;
        enumeratedOnce := false;
      }
    }

    method OnLastObserverUnregistered()
      modifies this`shouldTerminate, this`observerThread, this`enumeratedOnce, this`history
      ensures View() == StopThread(old(View()))
    {
      history := history + [Stopped];
      TerminateObserverThread();
    }

    /** A turn of the thread's loop in which the time for a check has come. */
    method PollingTurn(scan: Interfaces)
      requires commonDelegate.osDependentDelegate == this && commonDelegate.Valid()
      modifies this`history, commonDelegate`networkInterfaces, commonDelegate`received
      ensures commonDelegate.Valid()
      ensures Next(old(commonDelegate.View()), Poll(scan), commonDelegate.View())
    {
      hide Refresh, Running, Fresh, Orderly;
      ghost var before := commonDelegate.View();
      if observerThread && !shouldTerminate {
        history := history + [Enumerated];
        commonDelegate.OnNewInterfacesList(scan);
      }
      NextPolls(before, Poll(scan), commonDelegate.View());
    }
  }
}
