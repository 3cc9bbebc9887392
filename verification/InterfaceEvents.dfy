/** Interfaces, the events that observers get, and what the events tell an observer. */
module InterfaceEvents {
  import opened Addresses
  import opened Subnets

  datatype InterfaceType = NoType | Loopback | Ethernet | WiFi | AWDL

  datatype Interface = Interface(
    id: string, description: string, alias: string, macAddress: seq<nat>,
    ipAddressInfos: seq<IPAddressInfo>, gateways: seq<Address>,
    kind: InterfaceType, isEnabled: bool, isConnected: bool, isVirtual: bool)

  type Interfaces = map<string, Interface>

  /** The fields whose changes are sent, each with its value. */
  datatype Field =
    | Enabled(isEnabled: bool)
    | Connected(isConnected: bool)
    | Alias(alias: string)
    | IPAddressInfos(ipAddressInfos: seq<IPAddressInfo>)
    | Gateways(gateways: seq<Address>)

  type Fields = s: seq<Field> | |s| == 5
    witness [Enabled(false), Enabled(false), Enabled(false), Enabled(false), Enabled(false)]

  /** The five monitored fields, in the order in which the program compares them. */
  function FieldsOf(intfc: Interface): Fields {
    [Enabled(intfc.isEnabled), Connected(intfc.isConnected), Alias(intfc.alias),
     IPAddressInfos(intfc.ipAddressInfos), Gateways(intfc.gateways)]
  }

  function IndexOf(field: Field): nat {
    match field
    case Enabled(_) => 0
    case Connected(_) => 1
    case Alias(_) => 2
    case IPAddressInfos(_) => 3
    case Gateways(_) => 4
  }

  /** The interface with one field assigned. */
  function With(intfc: Interface, field: Field): Interface {
    match field
    case Enabled(b) => intfc.(isEnabled := b)
    case Connected(b) => intfc.(isConnected := b)
    case Alias(a) => intfc.(alias := a)
    case IPAddressInfos(infos) => intfc.(ipAddressInfos := infos)
    case Gateways(g) => intfc.(gateways := g)
  }

  /** A call of an observer, with its arguments; there is a callback for each field. */
  datatype Event =
    | Added(intfc: Interface)
    | Removed(intfc: Interface)
    | Changed(intfc: Interface, field: Field)

  // ---- the events of a full refresh ----

  /** The events for the first `k` fields of an interface that is kept. */
  function ChangesUpTo(previous: Interface, current: Interface, k: nat): seq<Event>
    requires k <= 5
  {
    if k == 0 then []
    else
      var field := FieldsOf(current)[k - 1];
      ChangesUpTo(previous, current, k - 1)
      + if FieldsOf(previous)[k - 1] != field then [Changed(current, field)] else []
  }

  function ChangeEvents(previous: Interface, current: Interface): seq<Event> {
    ChangesUpTo(previous, current, 5)
  }

  /** What is sent for each name of `order`, one after the other. */
  function Removals(before: Interfaces, order: seq<string>): seq<Event>
    requires forall name :: name in order ==> name in before
  {
    if order == [] then []
    else Removals(before, order[..|order| - 1]) + [Removed(before[order[|order| - 1]])]
  }

  function Additions(after: Interfaces, order: seq<string>): seq<Event>
    requires forall name :: name in order ==> name in after
  {
    if order == [] then []
    else Additions(after, order[..|order| - 1]) + [Added(after[order[|order| - 1]])]
  }

  function Changes(before: Interfaces, after: Interfaces, order: seq<string>): seq<Event>
    requires forall name :: name in order ==> name in before && name in after
  {
    if order == [] then []
    else
      var name := order[|order| - 1];
      Changes(before, after, order[..|order| - 1]) + ChangeEvents(before[name], after[name])
  }

  /** `order` lists every element of `names` once: the order of some iteration over them. */
  ghost predicate Enumerates(order: seq<string>, names: set<string>) {
    (forall name :: name in order <==> name in names) && Distinct(order)
  }

  /** The events that a refresh from `before` to `after` may send, for some order of each iteration. */
  ghost predicate Refresh(before: Interfaces, after: Interfaces, events: seq<Event>) {
    exists removed, added, kept :: RefreshIn(before, after, events, removed, added, kept)
  }

  ghost predicate RefreshIn(before: Interfaces, after: Interfaces, events: seq<Event>,
                            removed: seq<string>, added: seq<string>, kept: seq<string>)
  {
    Enumerates(removed, before.Keys - after.Keys) &&
    Enumerates(added, after.Keys - before.Keys) &&
    Enumerates(kept, before.Keys * after.Keys) &&
    events == Removals(before, removed) + Additions(after, added) + Changes(before, after, kept)
  }

  // ---- what an observer knows ----

  type Picture = map<string, Fields>

  function PictureOf(interfaces: Interfaces): Picture {
    map name | name in interfaces :: FieldsOf(interfaces[name])
  }

  /** An observer that keeps interfaces by their identifier. */
  function See(picture: Picture, event: Event): Picture {
    var id := event.intfc.id;
    match event
    case Added(intfc) => picture[id := FieldsOf(intfc)]
    case Removed(_) => picture - {id}
    case Changed(_, field) =>
      if id in picture then picture[id := picture[id][IndexOf(field) := field]] else picture
  }

  function SeeAll(picture: Picture, events: seq<Event>): Picture {
    if events == [] then picture
    else See(SeeAll(picture, events[..|events| - 1]), events[|events| - 1])
  }

  lemma SeeNothing(picture: Picture)
    ensures SeeAll(picture, []) == picture
  {
  }

  lemma {:induction false} SeeInTurn(picture: Picture, a: seq<Event>, b: seq<Event>)
    ensures SeeAll(picture, a + b) == SeeAll(SeeAll(picture, a), b)
  {
    if b == [] {
      assert a + b == a;
    } else {
      assert (a + b)[..|a + b| - 1] == a + b[..|b| - 1];
      SeeInTurn(picture, a, b[..|b| - 1]);
    }
  }

  /** The names under which interfaces are kept are their identifiers. */
  ghost predicate Keyed(interfaces: Interfaces) {
    forall name :: name in interfaces ==> interfaces[name].id == name
  }

  // ---- the events of a refresh turn the old picture into the new one ----

  lemma {:induction false} SeeRemovals(picture: Picture, before: Interfaces, order: seq<string>)
    requires Keyed(before) && forall name :: name in order ==> name in before
    ensures SeeAll(picture, Removals(before, order)) == picture - (set name | name in order)
  {
    hide SeeAll, FieldsOf;
    SeeNothing(picture);
    if order != [] {
      var n := |order| - 1;
      var front := Removals(before, order[..n]);
      SeeRemovals(picture, before, order[..n]);
      SeeOne(picture, front, Removed(before[order[n]]));
      RemoveOne(picture, order);
    } else {
      assert picture - (set name | name in order) == picture;
    }
  }

  lemma RemoveOne(picture: Picture, order: seq<string>)
    requires order != []
    ensures var n := |order| - 1;
      picture - (set name | name in order) == picture - (set name | name in order[..n]) - {order[n]}
  {
    assert order == order[..|order| - 1] + [order[|order| - 1]];
  }

  lemma SeeOne(picture: Picture, events: seq<Event>, event: Event)
    ensures SeeAll(picture, events + [event]) == See(SeeAll(picture, events), event)
  {
    assert (events + [event])[..|events|] == events;
  }

  lemma {:induction false} SeeAdditions(picture: Picture, after: Interfaces, order: seq<string>)
    requires Keyed(after) && forall name :: name in order ==> name in after
    ensures SeeAll(picture, Additions(after, order)) == Updated(picture, after, order)
  {
    hide FieldsOf, SeeAll;
    if order == [] {
      SeeNothing(picture);
    } else {
      var n := |order| - 1;
      var front := Additions(after, order[..n]);
      SeeAdditions(picture, after, order[..n]);
      SeeOne(picture, front, Added(after[order[n]]));
      UpdatedOver(picture, after, order);
    }
  }

  /** The change events of an interface bring its fields up to date, one after the other. */
  lemma {:induction false} SeeChange(picture: Picture, previous: Interface, current: Interface, k: nat)
    requires k <= 5 && current.id in picture && picture[current.id] == FieldsOf(previous)
    ensures SeeAll(picture, ChangesUpTo(previous, current, k))
         == picture[current.id := Mixed(FieldsOf(previous), FieldsOf(current), k)]
  {
    hide FieldsOf, SeeAll, IndexOf, Mixed;
    MixedStep(FieldsOf(previous), FieldsOf(current), k);
    if k > 0 {
      var front, field := ChangesUpTo(previous, current, k - 1), FieldsOf(current)[k - 1];
      SeeChange(picture, previous, current, k - 1);
      FieldIndex(current, k - 1);
      if FieldsOf(previous)[k - 1] != field {
        SeeOne(picture, front, Changed(current, field));
      } else {
        assert front + [] == front;
      }
    } else {
      SeeNothing(picture);
    }
  }

  /** The first `k` fields are current, the others are still as they were. */
  function Mixed(previous: Fields, current: Fields, k: nat): Fields
    requires k <= 5
  {
    current[..k] + previous[k..]
  }

  lemma MixedStep(previous: Fields, current: Fields, k: nat)
    requires k <= 5
    ensures Mixed(previous, current, 0) == previous && Mixed(previous, current, 5) == current
    ensures k > 0 ==> Mixed(previous, current, k) == Mixed(previous, current, k - 1)[k - 1 := current[k - 1]]
    ensures k > 0 && previous[k - 1] == current[k - 1] ==>
      Mixed(previous, current, k) == Mixed(previous, current, k - 1)
  {
  }

  lemma FieldIndex(intfc: Interface, k: nat)
    requires k < 5
    ensures IndexOf(FieldsOf(intfc)[k]) == k
  {
  }

  lemma {:induction false} SeeChanges(picture: Picture, before: Interfaces, after: Interfaces, order: seq<string>)
    requires Keyed(before) && Keyed(after)
    requires forall name :: name in order ==> name in before && name in after && name in picture
    requires forall name :: name in order ==> picture[name] == FieldsOf(before[name])
    requires Distinct(order)
    ensures SeeAll(picture, Changes(before, after, order))
         == Updated(picture, after, order)
  {
    hide See, SeeAll, ChangesUpTo, FieldsOf, Mixed;
    if order == [] {
      SeeNothing(picture);
    } else {
      var n := |order| - 1;
      var last := order[n];
      SeeChanges(picture, before, after, order[..n]);
      SeeInTurn(picture, Changes(before, after, order[..n]), ChangeEvents(before[last], after[last]));
      UpdatedOver(picture, after, order);
      assert last !in order[..n];
      SeeChange(Updated(picture, after, order[..n]), before[last], after[last], 5);
      MixedStep(FieldsOf(before[last]), FieldsOf(after[last]), 5);
    }
  }

  /** The picture with the interfaces of `order` as they are afterwards. */
  function Updated(picture: Picture, after: Interfaces, order: seq<string>): Picture
    requires forall name :: name in order ==> name in after
  {
    picture + (map name | name in order :: FieldsOf(after[name]))
  }

  lemma UpdatedOver(picture: Picture, after: Interfaces, order: seq<string>)
    requires order != [] && forall name :: name in order ==> name in after
    ensures var n := |order| - 1;
      Updated(picture, after, order) == Updated(picture, after, order[..n])[order[n] := FieldsOf(after[order[n]])]
  {
    hide FieldsOf;
    assert order == order[..|order| - 1] + [order[|order| - 1]];
  }

  /** Whatever the order of the iterations, seeing the events of a refresh turns the picture of the
      old interfaces into the picture of the new ones. */
  lemma PictureFollowsRefresh(before: Interfaces, after: Interfaces, events: seq<Event>)
    requires Keyed(before) && Keyed(after) && Refresh(before, after, events)
    ensures SeeAll(PictureOf(before), events) == PictureOf(after)
  {
    hide See, SeeAll, Removals, Additions, Changes, FieldsOf;
    var removed, added, kept :| RefreshIn(before, after, events, removed, added, kept);
    var picture := PictureOf(before);
    SeeInTurn(picture, Removals(before, removed) + Additions(after, added), Changes(before, after, kept));
    SeeInTurn(picture, Removals(before, removed), Additions(after, added));
    SeeRemovals(picture, before, removed);
    var afterRemovals := picture - (set name | name in removed);
    SeeAdditions(afterRemovals, after, added);
    var afterAdditions := Updated(afterRemovals, after, added);
    SeeChanges(afterAdditions, before, after, kept);
    PicturesMeet(before, after, removed, added, kept);
  }

  lemma PicturesMeet(before: Interfaces, after: Interfaces,
                     removed: seq<string>, added: seq<string>, kept: seq<string>)
    requires Enumerates(removed, before.Keys - after.Keys)
    requires Enumerates(added, after.Keys - before.Keys)
    requires Enumerates(kept, before.Keys * after.Keys)
    ensures Updated(Updated(PictureOf(before) - (set name | name in removed), after, added), after, kept)
         == PictureOf(after)
  {
    hide FieldsOf;
  }

  /** An observer that registers sees the picture from nothing. */
  lemma PictureFromNothing(interfaces: Interfaces, order: seq<string>)
    requires Keyed(interfaces) && Enumerates(order, interfaces.Keys)
    ensures SeeAll(map[], Additions(interfaces, order)) == PictureOf(interfaces)
  {
    SeeAdditions(map[], interfaces, order);
  }

  // ---- a refresh sends exactly the differences ----

  /** The events that the difference between the two lists calls for. */
  predicate Expected(before: Interfaces, after: Interfaces, event: Event) {
    var id := event.intfc.id;
    match event
    case Added(intfc) => id !in before && id in after && after[id] == intfc
    case Removed(intfc) => id in before && id !in after && before[id] == intfc
    case Changed(intfc, field) =>
      id in before && id in after && after[id] == intfc && Differs(before[id], intfc, field)
  }

  /** `field` is a field of the current interface that the previous one had otherwise. */
  predicate Differs(previous: Interface, current: Interface, field: Field) {
    FieldsOf(current)[IndexOf(field)] == field && FieldsOf(previous)[IndexOf(field)] != field
  }

  ghost predicate Distinct(order: seq<string>) {
    forall i, j :: 0 <= i < j < |order| ==> order[i] != order[j]
  }

  lemma DistinctFront(order: seq<string>)
    requires order != [] && Distinct(order)
    ensures Distinct(order[..|order| - 1]) && order[|order| - 1] !in order[..|order| - 1]
    ensures order == order[..|order| - 1] + [order[|order| - 1]]
  {
  }

  lemma {:induction false} CountRemovals(before: Interfaces, order: seq<string>, event: Event)
    requires Keyed(before) && Distinct(order) && forall name :: name in order ==> name in before
    ensures multiset(Removals(before, order))[event]
         == if event.Removed? && event.intfc.id in order && before[event.intfc.id] == event.intfc then 1 else 0
  {
    if order != [] {
      DistinctFront(order);
      CountRemovals(before, order[..|order| - 1], event);
    }
  }

  lemma {:induction false} CountAdditions(after: Interfaces, order: seq<string>, event: Event)
    requires Keyed(after) && Distinct(order) && forall name :: name in order ==> name in after
    ensures multiset(Additions(after, order))[event]
         == if event.Added? && event.intfc.id in order && after[event.intfc.id] == event.intfc then 1 else 0
  {
    if order != [] {
      DistinctFront(order);
      CountAdditions(after, order[..|order| - 1], event);
    }
  }

  lemma {:induction false} CountChange(previous: Interface, current: Interface, k: nat, event: Event)
    requires k <= 5
    ensures multiset(ChangesUpTo(previous, current, k))[event]
         == if event.Changed? && event.intfc == current && IndexOf(event.field) < k &&
               Differs(previous, current, event.field)
            then 1 else 0
  {
    hide FieldsOf;
    if k > 0 {
      FieldIndex(current, k - 1);
      CountChange(previous, current, k - 1, event);
    }
  }

  lemma {:induction false} CountChanges(before: Interfaces, after: Interfaces, order: seq<string>, event: Event)
    requires Keyed(before) && Keyed(after) && Distinct(order)
    requires forall name :: name in order ==> name in before && name in after
    ensures multiset(Changes(before, after, order))[event]
         == if event.Changed? && event.intfc.id in order && after[event.intfc.id] == event.intfc
               && Differs(before[event.intfc.id], event.intfc, event.field)
            then 1 else 0
  {
    hide ChangesUpTo, Differs;
    if order != [] {
      DistinctFront(order);
      var last := order[|order| - 1];
      CountChanges(before, after, order[..|order| - 1], event);
      CountChange(before[last], after[last], 5, event);
    }
  }

  /** Whatever the order of the iterations: one Removed per vanished name, one Added per new name, one
      change per differing monitored field of a kept name, and nothing else. */
  lemma RefreshIsExact(before: Interfaces, after: Interfaces, events: seq<Event>, event: Event)
    requires Keyed(before) && Keyed(after) && Refresh(before, after, events)
    ensures multiset(events)[event] == if Expected(before, after, event) then 1 else 0
  {
    hide Removals, Additions, Changes, Differs;
    var removed, added, kept :| RefreshIn(before, after, events, removed, added, kept);
    CountRemovals(before, removed, event);
    CountAdditions(after, added, event);
    CountChanges(before, after, kept, event);
  }

  // ---- when a refresh is silent ----

  lemma {:induction false} LengthOfRemovals(before: Interfaces, order: seq<string>)
    requires forall name :: name in order ==> name in before
    ensures |Removals(before, order)| == |order|
  {
    if order != [] {
      LengthOfRemovals(before, order[..|order| - 1]);
    }
  }

  lemma {:induction false} LengthOfAdditions(after: Interfaces, order: seq<string>)
    requires forall name :: name in order ==> name in after
    ensures |Additions(after, order)| == |order|
  {
    if order != [] {
      LengthOfAdditions(after, order[..|order| - 1]);
    }
  }

  lemma {:induction false} NoChange(previous: Interface, current: Interface, k: nat)
    requires k <= 5
    ensures ChangesUpTo(previous, current, k) == [] <==> FieldsOf(previous)[..k] == FieldsOf(current)[..k]
  {
    hide FieldsOf;
    if k > 0 {
      NoChange(previous, current, k - 1);
      assert FieldsOf(previous)[..k] == FieldsOf(previous)[..k - 1] + [FieldsOf(previous)[k - 1]];
      assert FieldsOf(current)[..k] == FieldsOf(current)[..k - 1] + [FieldsOf(current)[k - 1]];
    }
  }

  lemma SameFields(previous: Interface, current: Interface)
    ensures ChangeEvents(previous, current) == [] <==> FieldsOf(previous) == FieldsOf(current)
  {
    hide FieldsOf, ChangesUpTo;
    NoChange(previous, current, 5);
    assert FieldsOf(previous)[..5] == FieldsOf(previous) && FieldsOf(current)[..5] == FieldsOf(current);
  }

  lemma {:induction false} NoChanges(before: Interfaces, after: Interfaces, order: seq<string>)
    requires forall name :: name in order ==> name in before && name in after
    ensures Changes(before, after, order) == []
      <==> forall name :: name in order ==> FieldsOf(before[name]) == FieldsOf(after[name])
  {
    hide FieldsOf, ChangeEvents;
    if order != [] {
      var n := |order| - 1;
      NoChanges(before, after, order[..n]);
      SameFields(before[order[n]], after[order[n]]);
      assert order == order[..n] + [order[n]];
    }
  }

  lemma NothingIn(order: seq<string>, names: set<string>)
    requires Enumerates(order, names)
    ensures order == [] <==> names == {}
  {
    if order != [] {
      assert order[0] in order;
    }
  }

  /** A refresh sends nothing exactly when names and monitored fields are the same: repeating a list is
      silent, and so is a change of description, MAC address, type or virtual state. */
  lemma SilentRefresh(before: Interfaces, after: Interfaces, events: seq<Event>)
    requires Refresh(before, after, events)
    ensures events == [] <==> PictureOf(before) == PictureOf(after)
  {
    hide Removals, Additions, Changes, FieldsOf;
    var removed, added, kept :| RefreshIn(before, after, events, removed, added, kept);
    LengthOfRemovals(before, removed);
    LengthOfAdditions(after, added);
    NothingIn(removed, before.Keys - after.Keys);
    NothingIn(added, after.Keys - before.Keys);
    NoChanges(before, after, kept);
    EqualPictures(before, after);
  }

  lemma EqualPictures(before: Interfaces, after: Interfaces)
    ensures PictureOf(before) == PictureOf(after)
      <==> before.Keys - after.Keys == {} && after.Keys - before.Keys == {}
           && forall name :: name in before && name in after ==> FieldsOf(before[name]) == FieldsOf(after[name])
  {
    hide FieldsOf;
    if PictureOf(before) == PictureOf(after) {
      assert PictureOf(before).Keys == before.Keys && PictureOf(after).Keys == after.Keys;
      forall name | name in before && name in after
        ensures FieldsOf(before[name]) == FieldsOf(after[name])
      {
        assert PictureOf(before)[name] == PictureOf(after)[name];
      }
    }
  }

  // ---- the fine-grained notifications ----

  /** What an OS-dependent part may report about one interface. */
  datatype Update =
    | InterfaceAdded(name: string, intfc: Interface)
    | InterfaceRemoved(name: string)
    | FieldChanged(name: string, field: Field)

  /** The list of interfaces after an update; an unknown or already known name changes nothing. */
  function Apply(interfaces: Interfaces, update: Update): Interfaces {
    match update
    case InterfaceAdded(name, intfc) => if name in interfaces then interfaces else interfaces[name := intfc]
    case InterfaceRemoved(name) => interfaces - {name}
    case FieldChanged(name, field) =>
      if name in interfaces then interfaces[name := With(interfaces[name], field)] else interfaces
  }

  /** What the handler of an update sends. */
  function Sent(interfaces: Interfaces, update: Update): seq<Event> {
    match update
    case InterfaceAdded(name, intfc) => if name in interfaces then [] else [Added(intfc)]
    case InterfaceRemoved(name) => if name in interfaces then [Removed(interfaces[name])] else []
    case FieldChanged(name, field) =>
      if name in interfaces && FieldsOf(interfaces[name])[IndexOf(field)] != field
      then [Changed(With(interfaces[name], field), field)] else []
  }

  lemma FieldsWith(intfc: Interface, field: Field)
    ensures FieldsOf(With(intfc, field)) == FieldsOf(intfc)[IndexOf(field) := field]
  {
  }

  lemma {:induction false} ChangeOfOneField(intfc: Interface, field: Field, k: nat)
    requires k <= 5
    ensures ChangesUpTo(intfc, With(intfc, field), k)
         == if IndexOf(field) < k && FieldsOf(intfc)[IndexOf(field)] != field
            then [Changed(With(intfc, field), field)] else []
  {
    hide FieldsOf, With;
    FieldsWith(intfc, field);
    if k > 0 {
      ChangeOfOneField(intfc, field, k - 1);
    }
  }

  /** When all fields are equal but for one name, only that name's changes are sent. */
  lemma {:induction false} ChangesOfOne(before: Interfaces, after: Interfaces, order: seq<string>, name: string)
    requires Distinct(order) && forall n :: n in order ==> n in before && n in after
    requires forall n :: n in order && n != name ==> FieldsOf(before[n]) == FieldsOf(after[n])
    ensures Changes(before, after, order) == if name in order then ChangeEvents(before[name], after[name]) else []
  {
    hide FieldsOf, ChangeEvents;
    if order != [] {
      DistinctFront(order);
      var last := order[|order| - 1];
      ChangesOfOne(before, after, order[..|order| - 1], name);
      SameFields(before[last], after[last]);
    }
  }

  lemma {:induction false} SomeOrder(names: set<string>) returns (order: seq<string>)
    ensures Enumerates(order, names)
  {
    if names == {} {
      order := [];
    } else {
      var name :| name in names;
      order := SomeOrder(names - {name});
      order := order + [name];
    }
  }

  lemma OneIn(order: seq<string>, name: string)
    requires Enumerates(order, {name})
    ensures order == [name]
  {
    assert name in order;
    assert forall i :: 0 <= i < |order| ==> order[i] in order;
    assert order[0] == name && order[|order| - 1] == name;
  }

  lemma SendNothing(before: Interfaces, after: Interfaces)
    ensures Removals(before, []) == [] && Additions(after, []) == []
  {
  }

  lemma SendRemoved(before: Interfaces, name: string)
    requires name in before
    ensures Removals(before, [name]) == [Removed(before[name])]
  {
    assert [name][..0] == [];
  }

  lemma SendAdded(after: Interfaces, name: string)
    requires name in after
    ensures Additions(after, [name]) == [Added(after[name])]
  {
    assert [name][..0] == [];
  }

  /** The one iteration order and the events of a refresh by an update. */
  lemma RefreshByUpdate(interfaces: Interfaces, update: Update,
                        removed: seq<string>, added: seq<string>, kept: seq<string>)
    requires var after := Apply(interfaces, update);
      Enumerates(removed, interfaces.Keys - after.Keys) && Enumerates(added, after.Keys - interfaces.Keys) &&
      Enumerates(kept, interfaces.Keys * after.Keys)
    ensures Removals(interfaces, removed) + Additions(Apply(interfaces, update), added)
            + Changes(interfaces, Apply(interfaces, update), kept)
         == Sent(interfaces, update)
  {
    hide FieldsOf, With, ChangesUpTo, Changes, Removals, Additions;
    SendNothing(interfaces, Apply(interfaces, update));
    var after, name := Apply(interfaces, update), update.name;
    ChangesOfOne(interfaces, after, kept, name);
    if name in interfaces {
      SameFields(interfaces[name], interfaces[name]);
    }
    NothingIn(removed, interfaces.Keys - after.Keys);
    NothingIn(added, after.Keys - interfaces.Keys);
    match update
    case InterfaceAdded(_, intfc) =>
      if name !in interfaces {
        assert after.Keys - interfaces.Keys == {name};
        OneIn(added, name);
        SendAdded(after, name);
      }
    case InterfaceRemoved(_) =>
      if name in interfaces {
        assert interfaces.Keys - after.Keys == {name};
        OneIn(removed, name);
        SendRemoved(interfaces, name);
      }
    case FieldChanged(_, field) =>
      if name in interfaces {
        ChangeOfOneField(interfaces[name], field, 5);
      }
  }

  /** Each fine-grained handler sends what a full refresh with the updated list would, in any order of
      iteration: the two are interchangeable. */
  lemma UpdateIsRefresh(interfaces: Interfaces, update: Update, events: seq<Event>)
    ensures Refresh(interfaces, Apply(interfaces, update), events) <==> events == Sent(interfaces, update)
  {
    hide Removals, Additions, Changes, Sent;
    var after := Apply(interfaces, update);
    if Refresh(interfaces, after, events) {
      var removed, added, kept :| RefreshIn(interfaces, after, events, removed, added, kept);
      RefreshByUpdate(interfaces, update, removed, added, kept);
    }
    if events == Sent(interfaces, update) {
      var removed := SomeOrder(interfaces.Keys - after.Keys);
      var added := SomeOrder(after.Keys - interfaces.Keys);
      var kept := SomeOrder(interfaces.Keys * after.Keys);
      RefreshByUpdate(interfaces, update, removed, added, kept);
      assert RefreshIn(interfaces, after, events, removed, added, kept);
    }
  }

  /** An update reported under an interface's own identifier keeps the names in step. */
  lemma ApplyKeepsKeys(interfaces: Interfaces, update: Update)
    requires Keyed(interfaces) && (update.InterfaceAdded? ==> update.intfc.id == update.name)
    ensures Keyed(Apply(interfaces, update))
  {
  }

  // ---- in terms of the fields ----

  /** The monitored fields are these five. */
  lemma MonitoredFields(a: Interface, b: Interface)
    ensures FieldsOf(a) == FieldsOf(b)
      <==> a.isEnabled == b.isEnabled && a.isConnected == b.isConnected && a.alias == b.alias &&
           a.ipAddressInfos == b.ipAddressInfos && a.gateways == b.gateways
  {
    var x, y := FieldsOf(a), FieldsOf(b);
    assert x == y <==> x[0] == y[0] && x[1] == y[1] && x[2] == y[2] && x[3] == y[3] && x[4] == y[4];
  }

  /** What each event says: the interface as it is afterwards, or was before if it is gone, and for a change
      the new value of a field that had another one. */
  lemma ExpectedMeans(before: Interfaces, after: Interfaces, intfc: Interface)
    ensures var id := intfc.id;
      (Expected(before, after, Added(intfc)) <==> id !in before && id in after && after[id] == intfc) &&
      (Expected(before, after, Removed(intfc)) <==> id in before && id !in after && before[id] == intfc)
    ensures var id := intfc.id;
      var kept := id in before && id in after && after[id] == intfc;
      (forall b :: Expected(before, after, Changed(intfc, Enabled(b)))
              <==> kept && b == intfc.isEnabled && before[id].isEnabled != b) &&
      (forall b :: Expected(before, after, Changed(intfc, Connected(b)))
              <==> kept && b == intfc.isConnected && before[id].isConnected != b) &&
      (forall a :: Expected(before, after, Changed(intfc, Alias(a)))
              <==> kept && a == intfc.alias && before[id].alias != a) &&
      (forall infos :: Expected(before, after, Changed(intfc, IPAddressInfos(infos)))
              <==> kept && infos == intfc.ipAddressInfos && before[id].ipAddressInfos != infos) &&
      (forall g :: Expected(before, after, Changed(intfc, Gateways(g)))
              <==> kept && g == intfc.gateways && before[id].gateways != g)
  {
    hide Differs;
    if intfc.id in before {
      DiffersMeans(before[intfc.id], intfc);
    }
  }

  lemma DiffersMeans(previous: Interface, current: Interface)
    ensures forall b :: Differs(previous, current, Enabled(b)) <==> b == current.isEnabled && previous.isEnabled != b
    ensures forall b :: (
      Differs(previous, current, Connected(b)) <==> b == current.isConnected && previous.isConnected != b)
    ensures forall a :: Differs(previous, current, Alias(a)) <==> a == current.alias && previous.alias != a
    ensures forall infos :: (
      Differs(previous, current, IPAddressInfos(infos)) <==>
        infos == current.ipAddressInfos && previous.ipAddressInfos != infos)
    ensures forall g :: Differs(previous, current, Gateways(g)) <==> g == current.gateways && previous.gateways != g
  {
  }

  /** What an update does to the list: only the named interface changes; one that is known is not added again,
      and of one that is known the given field gets the given value and everything else stays. */
  lemma ApplyMeans(interfaces: Interfaces, update: Update)
    ensures var after, name := Apply(interfaces, update), update.name;
      (forall other :: other != name ==>
        (other in after <==> other in interfaces) && (other in interfaces ==> after[other] == interfaces[other])) &&
      match update
      case InterfaceAdded(_, intfc) =>
        name in after && after[name] == if name in interfaces then interfaces[name] else intfc
      case InterfaceRemoved(_) => name !in after
      case FieldChanged(_, field) =>
        (name in after <==> name in interfaces) &&
        (name in interfaces ==>
          var x, y := interfaces[name], after[name];
          FieldsOf(y) == FieldsOf(x)[IndexOf(field) := field] &&
          y.id == x.id && y.description == x.description && y.macAddress == x.macAddress &&
          y.kind == x.kind && y.isVirtual == x.isVirtual)
  {
    hide FieldsOf, With;
    if update.FieldChanged? && update.name in interfaces {
      FieldsWith(interfaces[update.name], update.field);
      OthersWith(interfaces[update.name], update.field);
    }
  }

  lemma OthersWith(x: Interface, field: Field)
    ensures var y := With(x, field);
      y.id == x.id && y.description == x.description && y.macAddress == x.macAddress &&
      y.kind == x.kind && y.isVirtual == x.isVirtual
  {
  }

  // ---- the order of the events of a refresh ----

  function Rank(event: Event): nat {
    match event
    case Removed(_) => 0
    case Added(_) => 1
    case Changed(_, _) => 2
  }

  /** Of the changes of one interface, each is of a later field than those before it. */
  predicate ByField(events: seq<Event>) {
    forall i, j ::
      0 <= i < j < |events| && events[i].Changed? && events[j].Changed? && events[i].intfc.id == events[j].intfc.id ==>
        IndexOf(events[i].field) < IndexOf(events[j].field)
  }

  lemma {:induction false} RemovalsRank(before: Interfaces, order: seq<string>)
    requires forall name :: name in order ==> name in before
    ensures forall i :: 0 <= i < |Removals(before, order)| ==> Removals(before, order)[i].Removed?
  {
    if order != [] {
      RemovalsRank(before, order[..|order| - 1]);
    }
  }

  lemma {:induction false} AdditionsRank(after: Interfaces, order: seq<string>)
    requires forall name :: name in order ==> name in after
    ensures forall i :: 0 <= i < |Additions(after, order)| ==> Additions(after, order)[i].Added?
  {
    if order != [] {
      AdditionsRank(after, order[..|order| - 1]);
    }
  }

  lemma {:induction false} ChangesOfFields(previous: Interface, current: Interface, k: nat)
    requires k <= 5
    ensures var events := ChangesUpTo(previous, current, k);
      ByField(events) &&
      forall i :: 0 <= i < |events| ==> events[i].Changed? && events[i].intfc == current && IndexOf(events[i].field) < k
  {
    hide FieldsOf;
    if k > 0 {
      FieldIndex(current, k - 1);
      ChangesOfFields(previous, current, k - 1);
    }
  }

  lemma {:induction false} ChangesByField(before: Interfaces, after: Interfaces, order: seq<string>)
    requires Keyed(after) && Distinct(order) && forall name :: name in order ==> name in before && name in after
    ensures var events := Changes(before, after, order);
      ByField(events) && forall i :: 0 <= i < |events| ==> events[i].Changed? && events[i].intfc.id in order
  {
    hide ChangesUpTo;
    if order != [] {
      DistinctFront(order);
      var last := order[|order| - 1];
      ChangesByField(before, after, order[..|order| - 1]);
      ChangesOfFields(before[last], after[last], 5);
    }
  }

  /** Removals come first, then additions, then changes, and the changes of an interface in the order of the
      fields. */
  lemma RefreshInOrder(before: Interfaces, after: Interfaces, events: seq<Event>)
    requires Keyed(after) && Refresh(before, after, events)
    ensures forall i, j :: 0 <= i < j < |events| ==> Rank(events[i]) <= Rank(events[j])
    ensures ByField(events)
  {
    hide Removals, Additions, Changes;
    var removed, added, kept :| RefreshIn(before, after, events, removed, added, kept);
    RemovalsRank(before, removed);
    AdditionsRank(after, added);
    ChangesByField(before, after, kept);
    var x, y, z := Removals(before, removed), Additions(after, added), Changes(before, after, kept);
    assert forall i :: |x| + |y| <= i < |events| ==> events[i] == z[i - |x| - |y|];
  }

  /** What an observer that mirrors the registry knows: which interfaces there are, and the monitored fields of
      each. */
  lemma PicturesMean(a: Interfaces, b: Interfaces)
    ensures PictureOf(a).Keys == a.Keys
    ensures PictureOf(a) == PictureOf(b)
      <==> a.Keys == b.Keys &&
           forall name :: name in a && name in b ==>
             a[name].isEnabled == b[name].isEnabled && a[name].isConnected == b[name].isConnected &&
             a[name].alias == b[name].alias && a[name].ipAddressInfos == b[name].ipAddressInfos &&
             a[name].gateways == b[name].gateways
  {
    hide FieldsOf, PictureOf;
    assert PictureOf(a).Keys == a.Keys by { PictureNames(a); }
    EqualPictures(a, b);
    assert a.Keys == b.Keys <==> a.Keys - b.Keys == {} && b.Keys - a.Keys == {};
    forall name | name in a && name in b
      ensures FieldsOf(a[name]) == FieldsOf(b[name])
        <==> a[name].isEnabled == b[name].isEnabled && a[name].isConnected == b[name].isConnected &&
             a[name].alias == b[name].alias && a[name].ipAddressInfos == b[name].ipAddressInfos &&
             a[name].gateways == b[name].gateways
    {
      MonitoredFields(a[name], b[name]);
    }
  }

  lemma PictureNames(a: Interfaces)
    ensures PictureOf(a).Keys == a.Keys
  {
  }
}
