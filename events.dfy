/** The event and listener registry of plugins/plugin_manager/src/events.c.
    A game keeps its events in a sorted map keyed by the hash of each
    event's full name "plugin.event"; every event keeps a vector of
    listeners, each tagged with the namespace "plugin." of the plugin that
    registered it. Events are values held by the map, the hash function is a
    parameter, and so is the name of the built-in namespace. */
module Events {
  import opened CTypes
  import opened Wrappers
  import opened LibC
  import opened SortedMap
  import opened UnorderedVector
  import opened SeqOps

  /** A listener's callback, identified by its address. */
  type Callback = nat

  /** `struct event_listener_t`. */
  datatype Listener = Listener(exec: Callback, nameSpace: string)

  /** `struct event_t`: the full name and the listener vector. */
  datatype Event = Event(name: string, listeners: seq<Listener>)

  /** `strncmp(s, prefix, strlen(prefix)) == 0`. */
  predicate StartsWith(s: string, prefix: string)
  {
    OccursAt(s, prefix, 0)
  }

  /** event_get_full_name: "plugin.name". */
  function FullName(plugin: string, name: string): string
  {
    plugin + "." + name
  }

  /** event_get_name_space_name: "plugin.". */
  function NameSpaceOf(plugin: string): string
  {
    plugin + "."
  }

  // ---------------------------------------------------------------------
  // Listener vectors

  /** Some listener carries exactly the namespace `ns`. */
  predicate Listening(ls: seq<Listener>, ns: string)
  {
    exists i :: 0 <= i < |ls| && ls[i].nameSpace == ns
  }

  /** The first listener carrying the namespace `ns`. */
  function FirstListener(ls: seq<Listener>, ns: string): (i: nat)
    requires Listening(ls, ns)
    ensures i < |ls| && ls[i].nameSpace == ns
    ensures forall j :: 0 <= j < i ==> ls[j].nameSpace != ns
  {
    if ls[0].nameSpace == ns then 0
    else
      assert Listening(ls[1..], ns) by {
        var i :| 0 <= i < |ls| && ls[i].nameSpace == ns;
        assert ls[1..][i - 1] == ls[i];
      }
      1 + FirstListener(ls[1..], ns)
  }

  /** The listener loop shared by event_register_listener and
      event_unregister_listener: the first listener whose namespace is
      `ns`, if any. */
  method FindListener(ls: seq<Listener>, ns: string) returns (r: Option<nat>)
    ensures r.None? <==> !Listening(ls, ns)
    ensures r.Some? ==> r.value == FirstListener(ls, ns)
  {
    var i := 0;
    while i < |ls|
      invariant i <= |ls|
      invariant forall j :: 0 <= j < i ==> ls[j].nameSpace != ns
    {
      if ls[i].nameSpace == ns {
        return Some(i);
      }
      i := i + 1;
    }
    return None;
  }

  /** The listener vector event_register_listener leaves behind as written,
      or None when it refuses: with a plugin, the stored namespaces are
      compared against the bare plugin name. */
  function RegisteredAsWritten(ls: seq<Listener>, plugin: Option<string>, builtin: string, cb: Callback)
    : Option<seq<Listener>>
  {
    var ns := if plugin.Some? then plugin.value else builtin;
    if plugin.Some? && Listening(ls, ns) then None
    else Some(ls + [Listener(cb, NameSpaceOf(ns))])
  }

  /** The listener vector event_register_listener is meant to leave behind:
      a plugin already listening under its namespace "plugin." is refused;
      listeners of the built-in namespace (no plugin) are never refused. */
  function Registered(ls: seq<Listener>, plugin: Option<string>, builtin: string, cb: Callback)
    : Option<seq<Listener>>
  {
    var ns := if plugin.Some? then plugin.value else builtin;
    if plugin.Some? && Listening(ls, NameSpaceOf(ns)) then None
    else Some(ls + [Listener(cb, NameSpaceOf(ns))])
  }

  /** No two listeners share a namespace other than the built-in one. */
  predicate PluginsListenOnce(ls: seq<Listener>, builtin: string)
  {
    forall i, j :: 0 <= i < j < |ls| && ls[i].nameSpace == ls[j].nameSpace ==>
      ls[i].nameSpace == NameSpaceOf(builtin)
  }

  /** As written, the duplicate check compares "foo." with "foo" and never
      fires: the same plugin registers to the same event twice. */
  lemma AsWrittenRegistersTwice()
    ensures RegisteredAsWritten([], Some("foo"), "builtin", 1) == Some([Listener(1, "foo.")])
    ensures RegisteredAsWritten([Listener(1, "foo.")], Some("foo"), "builtin", 2)
            == Some([Listener(1, "foo."), Listener(2, "foo.")])
    ensures !PluginsListenOnce([Listener(1, "foo."), Listener(2, "foo.")], "builtin")
  {
    assert NameSpaceOf("foo") == "foo.";
    var ls := [Listener(1, "foo.")];
    assert !Listening([], "foo");
    assert [] + ls == ls;
    assert !Listening(ls, "foo") by {
      forall i | 0 <= i < |ls|
        ensures ls[i].nameSpace != "foo"
      {
        assert |ls[i].nameSpace| == 4;
      }
    }
    var two := [Listener(1, "foo."), Listener(2, "foo.")];
    assert ls + [Listener(2, "foo.")] == two;
    assert |NameSpaceOf("builtin")| == 8;
    assert two[0].nameSpace == two[1].nameSpace != NameSpaceOf("builtin");
  }

  /** Once a plugin is registered to an event, a second registration of the
      same plugin is refused. */
  lemma RegisterTwiceRefused(ls: seq<Listener>, plugin: string, builtin: string, cb1: Callback, cb2: Callback)
    requires Registered(ls, Some(plugin), builtin, cb1).Some?
    ensures Registered(Registered(ls, Some(plugin), builtin, cb1).value, Some(plugin), builtin, cb2).None?
  {
    var ls' := Registered(ls, Some(plugin), builtin, cb1).value;
    assert ls'[|ls|].nameSpace == NameSpaceOf(plugin);
  }

  /** Registration keeps every plugin listening at most once. */
  lemma RegisterKeepsPluginsOnce(ls: seq<Listener>, plugin: Option<string>, builtin: string, cb: Callback)
    requires PluginsListenOnce(ls, builtin)
    requires Registered(ls, plugin, builtin, cb).Some?
    ensures PluginsListenOnce(Registered(ls, plugin, builtin, cb).value, builtin)
  {
    var r := Registered(ls, plugin, builtin, cb).value;
    forall i, j | 0 <= i < j < |r| && r[i].nameSpace == r[j].nameSpace
      ensures r[i].nameSpace == NameSpaceOf(builtin)
    {
      if j < |ls| {
        assert r[i] == ls[i] && r[j] == ls[j];
      }
    }
  }

  /** The listener vector event_unregister_listener leaves behind, or None
      when no listener carries the namespace: the first one that does is
      swapped out by unordered_vector_erase_element. */
  function Unregistered(ls: seq<Listener>, ns: string): Option<seq<Listener>>
  {
    if Listening(ls, ns) then Some(SwapRemoved(ls, FirstListener(ls, ns))) else None
  }

  /** Unregistering removes exactly one listener, one carrying the given
      namespace, and keeps all others. */
  lemma UnregisterRemovesOne(ls: seq<Listener>, ns: string)
    requires Listening(ls, ns)
    ensures var i := FirstListener(ls, ns);
      multiset(Unregistered(ls, ns).value) == multiset(ls) - multiset{ls[i]}
    ensures |Unregistered(ls, ns).value| == |ls| - 1
  {
    SwapRemovedMultiset(ls, FirstListener(ls, ns));
  }

  /** A plugin's fresh registration is undone by unregistering its
      namespace "plugin.". */
  lemma UnregisterUndoesRegister(ls: seq<Listener>, plugin: string, builtin: string, cb: Callback)
    requires Registered(ls, Some(plugin), builtin, cb).Some?
    ensures Unregistered(Registered(ls, Some(plugin), builtin, cb).value, NameSpaceOf(plugin)) == Some(ls)
  {
    var l := Listener(cb, NameSpaceOf(plugin));
    var r := ls + [l];
    assert r[|ls|].nameSpace == NameSpaceOf(plugin);
    EraseUndoesPush(ls, l);
  }

  /** The listeners of `ls` outside the namespace `ns`, in order. */
  function ListenersOutside(ls: seq<Listener>, ns: string): seq<Listener>
  {
    if ls == [] then []
    else
      var last := ls[|ls| - 1];
      ListenersOutside(ls[..|ls| - 1], ns) + (if StartsWith(last.nameSpace, ns) then [] else [last])
  }

  /** Each listener outside the namespace is kept as often as it occurs;
      none inside it is kept. */
  lemma {:induction false} OutsideCount(ls: seq<Listener>, ns: string, x: Listener)
    ensures multiset(ListenersOutside(ls, ns))[x] == if StartsWith(x.nameSpace, ns) then 0 else multiset(ls)[x]
  {
    if ls != [] {
      var init := ls[..|ls| - 1];
      var last := ls[|ls| - 1];
      assert ls == init + [last];
      OutsideCount(init, ns, x);
    }
  }

  /** event_unregister_all_listeners_of_name_space: every listener whose
      namespace starts with `ns` is swapped out of the vector, and the slot
      it leaves is examined again. The other listeners remain, though not
      necessarily in their old order. */
  method DropNameSpace(ls: seq<Listener>, ns: string) returns (r: seq<Listener>)
    ensures forall i :: 0 <= i < |r| ==> !StartsWith(r[i].nameSpace, ns)
    ensures multiset(r) == multiset(ListenersOutside(ls, ns))
  {
    r := ls;
    ghost var removed: seq<Listener> := [];
    var i := 0;
    while i < |r|
      invariant i <= |r|
      invariant forall k :: 0 <= k < i ==> !StartsWith(r[k].nameSpace, ns)
      invariant forall k :: 0 <= k < |removed| ==> StartsWith(removed[k].nameSpace, ns)
      invariant multiset(r) + multiset(removed) == multiset(ls)
      decreases |r| - i
    {
      if StartsWith(r[i].nameSpace, ns) {
        SwapOut(ls, ns, r, removed, i);
        removed := removed + [r[i]];
        r := SwapRemoved(r, i);
      } else {
        i := i + 1;
      }
    }
    SplitByNameSpace(ls, ns, r, removed);
  }

  /** Swapping out a listener of the namespace moves it from the kept
      listeners to the removed ones and leaves the examined prefix alone. */
  lemma SwapOut(ls: seq<Listener>, ns: string, r: seq<Listener>, removed: seq<Listener>, i: nat)
    requires i < |r| && StartsWith(r[i].nameSpace, ns)
    requires forall k :: 0 <= k < i ==> !StartsWith(r[k].nameSpace, ns)
    requires multiset(r) + multiset(removed) == multiset(ls)
    requires forall k :: 0 <= k < |removed| ==> StartsWith(removed[k].nameSpace, ns)
    ensures i <= |SwapRemoved(r, i)|
    ensures forall k :: 0 <= k < i ==> !StartsWith(SwapRemoved(r, i)[k].nameSpace, ns)
    ensures forall k :: 0 <= k < |removed| + 1 ==> StartsWith((removed + [r[i]])[k].nameSpace, ns)
    ensures multiset(SwapRemoved(r, i)) + multiset(removed + [r[i]]) == multiset(ls)
  {
    SwapRemovedMultiset(r, i);
    assert forall k :: 0 <= k < i ==> SwapRemoved(r, i)[k] == r[k];
    assert forall k :: 0 <= k < |removed| ==> (removed + [r[i]])[k] == removed[k];
  }

  /** Listeners split into ones outside the namespace and ones inside it:
      the former are, as a multiset, the listeners outside it. */
  lemma SplitByNameSpace(ls: seq<Listener>, ns: string, r: seq<Listener>, removed: seq<Listener>)
    requires forall k :: 0 <= k < |r| ==> !StartsWith(r[k].nameSpace, ns)
    requires forall k :: 0 <= k < |removed| ==> StartsWith(removed[k].nameSpace, ns)
    requires multiset(r) + multiset(removed) == multiset(ls)
    ensures multiset(r) == multiset(ListenersOutside(ls, ns))
  {
    forall x
      ensures multiset(r)[x] == multiset(ListenersOutside(ls, ns))[x]
    {
      OutsideCount(ls, ns, x);
      if StartsWith(x.nameSpace, ns) {
        assert x !in r;
      } else {
        assert x !in removed;
      }
    }
  }

  // ---------------------------------------------------------------------
  // The game's event map

  /** The events of `es` whose names lie outside the namespace `ns`, in
      order. */
  function EventsOutside(es: seq<Entry<Event>>, ns: string): seq<Entry<Event>>
  {
    if es == [] then []
    else
      var last := es[|es| - 1];
      EventsOutside(es[..|es| - 1], ns) + (if StartsWith(last.value.name, ns) then [] else [last])
  }

  /** An event is kept exactly when it was there and its name lies outside
      the namespace. */
  lemma {:induction false} OutsideMembers(es: seq<Entry<Event>>, ns: string)
    ensures forall e :: e in EventsOutside(es, ns) <==> e in es && !StartsWith(e.value.name, ns)
  {
    if es != [] {
      var init := es[..|es| - 1];
      assert es == init + [es[|es| - 1]];
      OutsideMembers(init, ns);
    }
  }

  /** One more event considered: it is kept exactly when its name lies
      outside the namespace. */
  lemma OutsideStep(es: seq<Entry<Event>>, ns: string, j: nat)
    requires j < |es|
    ensures EventsOutside(es[..j + 1], ns)
            == EventsOutside(es[..j], ns) + (if StartsWith(es[j].value.name, ns) then [] else [es[j]])
  {
    assert es[..j + 1][..j] == es[..j];
  }

  /** The map during the erasing loop: the events kept so far, then the
      ones not yet visited. */
  lemma Seam<T>(kept: seq<T>, es: seq<T>, j: nat)
    requires j < |es|
    ensures (kept + es[j..])[|kept|] == es[j]
    ensures Erased(kept + es[j..], |kept|) == kept + es[j + 1..]
    ensures kept + es[j..] == (kept + [es[j]]) + es[j + 1..]
  {
  }

  /** Dropping events keeps the map's hashes ascending. */
  lemma {:induction false} OutsideKeepsSorted(es: seq<Entry<Event>>, ns: string)
    requires Sorted(es)
    ensures Sorted(EventsOutside(es, ns))
  {
    if es != [] {
      var init := es[..|es| - 1];
      var last := es[|es| - 1];
      assert Sorted(init);
      OutsideKeepsSorted(init, ns);
      OutsideMembers(init, ns);
      var r := EventsOutside(es, ns);
      forall i, j | 0 <= i < j < |r|
        ensures r[i].hash < r[j].hash
      {
        var ri := EventsOutside(init, ns);
        if j >= |ri| {
          assert r[j] == last && r[i] == ri[i] && r[i] in init;
          var k :| 0 <= k < |init| && init[k] == r[i];
          assert es[k] == init[k];
        } else {
          assert r[i] == ri[i] && r[j] == ri[j];
        }
      }
    }
  }

  /** No kept event carries the hash of an event inside `ns`. */
  lemma OutsideDropsHash(es: seq<Entry<Event>>, ns: string, k: nat)
    requires Sorted(es) && k < |es| && StartsWith(es[k].value.name, ns)
    ensures forall i :: 0 <= i < |EventsOutside(es, ns)| ==> EventsOutside(es, ns)[i].hash != es[k].hash
  {
    var r := EventsOutside(es, ns);
    OutsideMembers(es, ns);
    forall i | 0 <= i < |r|
      ensures r[i].hash != es[k].hash
    {
      assert r[i] in es;
      var m :| 0 <= m < |es| && es[m] == r[i];
      assert m != k;
    }
  }

  /** An event outside `ns` is still found under its hash. */
  lemma OutsideKeepsEntry(es: seq<Entry<Event>>, ns: string, k: nat)
    requires Sorted(es) && k < |es| && !StartsWith(es[k].value.name, ns)
    ensures Get(EventsOutside(es, ns), es[k].hash) == Some(es[k].value)
  {
    var r := EventsOutside(es, ns);
    OutsideKeepsSorted(es, ns);
    OutsideMembers(es, ns);
    assert es[k] in r;
    var m :| 0 <= m < |r| && r[m] == es[k];
    GetFound(r, m);
  }

  /** Outside `ns`, events are looked up exactly as before; inside it, not
      at all. */
  lemma OutsideGet(es: seq<Entry<Event>>, ns: string, h: U32)
    requires Sorted(es)
    ensures Get(EventsOutside(es, ns), h)
            == if Get(es, h).Some? && StartsWith(Get(es, h).value.name, ns) then None else Get(es, h)
  {
    var r := EventsOutside(es, ns);
    if Get(es, h).Some? {
      var k := LowerBound(es, h);
      LowerBoundDecides(es, h);
      if StartsWith(es[k].value.name, ns) {
        OutsideDropsHash(es, ns, k);
      } else {
        OutsideKeepsEntry(es, ns, k);
      }
    } else {
      OutsideMembers(es, ns);
      forall i | 0 <= i < |r|
        ensures r[i].hash != h
      {
        assert r[i] in es;
      }
    }
  }

  /** The event map of `struct game_t` with the parameters its operations
      rely on: the hash of full names and the built-in namespace's name. */
  class Game {
    const events: Map<Event>
    const hash: string -> U32
    const builtin: string

    ghost predicate Valid()
      reads this, events
    {
      events.Valid()
    }

    /** A game with no events registered. */
    constructor Init(hash: string -> U32, builtin: string)
      ensures Valid() && fresh(events) && events.entries == []
      ensures this.hash == hash && this.builtin == builtin
    {
      this.hash := hash;
      this.builtin := builtin;
      events := new Map<Event>.Init();
    }

    /** event_get: the event stored under the hash of `fullName` (under a
        hash collision, one of another name). */
    method EventGet(fullName: string) returns (r: Option<Event>)
      requires Valid()
      ensures r == Get(events.entries, hash(fullName))
      ensures r.None? <==> forall i :: 0 <= i < |events.entries| ==> events.entries[i].hash != hash(fullName)
    {
      r := events.Find(hash(fullName));
    }

    /** event_create: refuses a full name "plugin.name" whose hash is
        already taken, and returns NULL when `malloc` fails; otherwise it
        returns a new event without listeners and registers it under that
        hash. map_insert refuses MAP_INVALID_KEY and the result is not
        checked, so an event whose name hashes to it is returned without
        being registered. */
    method EventCreate(plugin: string, name: string, allocOk: bool) returns (r: Option<Event>)
      requires Valid()
      modifies events
      ensures Valid()
      ensures r.None? <==> old(Get(events.entries, hash(FullName(plugin, name)))).Some? || !allocOk
      ensures r.Some? ==> r.value == Event(FullName(plugin, name), [])
      ensures forall h :: Get(events.entries, h)
                          == if r.Some? && h == hash(FullName(plugin, name)) && h != MAP_INVALID_KEY
                             then r else old(Get(events.entries, h))
    {
      var full := FullName(plugin, name);
      var h := hash(full);
      var existing := events.Find(h);
      if existing.Some? {
        return None;
      }
      if !allocOk {
        return None;
      }
      var event := Event(full, []);
      ghost var es := events.entries;
      var inserted := events.Insert(h, event);
      forall k
        ensures Get(events.entries, k) == if k == h && h != MAP_INVALID_KEY then Some(event) else Get(es, k)
      {
        if h != MAP_INVALID_KEY {
          GetAfterInsert(es, Entry(h, event), k);
        }
      }
      return Some(event);
    }

    /** Replaces the event stored under `h`, as the in-place updates
        through an `event_t` pointer do. */
    method Replace(h: U32, event: Event)
      requires Valid() && Get(events.entries, h).Some?
      modifies events
      ensures Valid()
      ensures forall k :: Get(events.entries, k) == if k == h then Some(event) else old(Get(events.entries, k))
    {
      ghost var es := events.entries;
      LowerBoundDecides(es, h);
      events.Set(h, event);
      forall k
        ensures Get(events.entries, k) == if k == h then Some(event) else Get(es, k)
      {
        GetAfterSet(es, LowerBound(es, h), event, k);
      }
    }

    /** event_register_listener with its duplicate check comparing the
        stored namespaces against "plugin.": fails when the event does not
        exist or the plugin already listens to it; otherwise appends a
        listener tagged "plugin." (or the built-in namespace when there is
        no plugin). */
    method RegisterListener(plugin: Option<string>, eventFullName: string, cb: Callback) returns (ok: bool)
      requires Valid()
      modifies events
      ensures Valid()
      ensures var e := old(Get(events.entries, hash(eventFullName)));
        ok <==> e.Some? && Registered(e.value.listeners, plugin, builtin, cb).Some?
      ensures var h := hash(eventFullName);
        var e := old(Get(events.entries, h));
        forall k :: Get(events.entries, k) ==
          (if ok && k == h then Some(e.value.(listeners := Registered(e.value.listeners, plugin, builtin, cb).value))
           else old(Get(events.entries, k)))
    {
      var ns := if plugin.Some? then plugin.value else builtin;
      var h := hash(eventFullName);
      var found := events.Find(h);
      if found.None? {
        return false;
      }
      var event := found.value;
      if plugin.Some? {
        var dup := FindListener(event.listeners, NameSpaceOf(ns));
        if dup.Some? {
          return false;
        }
      }
      Replace(h, event.(listeners := event.listeners + [Listener(cb, NameSpaceOf(ns))]));
      return true;
    }

    /** event_unregister_listener: the first listener of the event whose
        namespace equals `pluginName` verbatim is swapped out; fails when
        the event does not exist or no listener carries that namespace. */
    method UnregisterListener(pluginName: string, eventName: string) returns (ok: bool)
      requires Valid()
      modifies events
      ensures Valid()
      ensures var e := old(Get(events.entries, hash(eventName)));
        ok <==> e.Some? && Listening(e.value.listeners, pluginName)
      ensures var h := hash(eventName);
        var e := old(Get(events.entries, h));
        forall k :: Get(events.entries, k) ==
          (if ok && k == h then Some(e.value.(listeners := Unregistered(e.value.listeners, pluginName).value))
           else old(Get(events.entries, k)))
    {
      var h := hash(eventName);
      var found := events.Find(h);
      if found.None? {
        return false;
      }
      var event := found.value;
      var i := FindListener(event.listeners, pluginName);
      if i.None? {
        return false;
      }
      Replace(h, event.(listeners := SwapRemoved(event.listeners, i.value)));
      return true;
    }

    /** event_unregister_all_listeners_of_plugin: drops the listeners of
        the namespace "plugin." from every event. */
    method UnregisterAllListenersOfPlugin(plugin: string)
      requires Valid()
      modifies events
      ensures Valid()
      ensures |events.entries| == |old(events.entries)|
      ensures forall k :: 0 <= k < |events.entries| ==>
        (&& events.entries[k].hash == old(events.entries)[k].hash
         && events.entries[k].value.name == old(events.entries)[k].value.name
         && multiset(events.entries[k].value.listeners)
            == multiset(ListenersOutside(old(events.entries)[k].value.listeners, NameSpaceOf(plugin))))
    {
      var ns := NameSpaceOf(plugin);
      ghost var es := events.entries;
      var i := 0;
      while i < |events.entries|
        invariant Valid() && |events.entries| == |es| && i <= |es|
        invariant forall k :: 0 <= k < |es| ==>
          events.entries[k].hash == es[k].hash && events.entries[k].value.name == es[k].value.name
        invariant forall k :: 0 <= k < i ==>
          multiset(events.entries[k].value.listeners) == multiset(ListenersOutside(es[k].value.listeners, ns))
        invariant forall k :: i <= k < |es| ==> events.entries[k] == es[k]
      {
        DropListenersAt(i, ns);
        i := i + 1;
      }
    }

    /** The body of the loop of event_unregister_all_listeners_of_plugin:
        the listeners of namespace `ns` leave the event at position `i`. */
    method DropListenersAt(i: nat, ns: string)
      requires Valid() && i < |events.entries|
      modifies events
      ensures Valid() && |events.entries| == |old(events.entries)|
      ensures forall k :: 0 <= k < |events.entries| && k != i ==> events.entries[k] == old(events.entries)[k]
      ensures events.entries[i].hash == old(events.entries)[i].hash
      ensures events.entries[i].value.name == old(events.entries)[i].value.name
      ensures multiset(events.entries[i].value.listeners)
              == multiset(ListenersOutside(old(events.entries)[i].value.listeners, ns))
    {
      var entry := events.entries[i];
      var kept := DropNameSpace(entry.value.listeners, ns);
      GetAfterSet(events.entries, i, entry.value.(listeners := kept), entry.hash);
      events.entries := events.entries[i := Entry(entry.hash, entry.value.(listeners := kept))];
    }

    /** event_destroy_all_plugin_events: erases, within the MAP_FOR_EACH
        loop, every event whose name starts with "plugin."; the others keep
        their order. */
    method DestroyAllPluginEvents(plugin: string)
      requires Valid()
      modifies events
      ensures Valid()
      ensures events.entries == EventsOutside(old(events.entries), NameSpaceOf(plugin))
    {
      var ns := NameSpaceOf(plugin);
      ghost var es := events.entries;
      var i := 0;
      ghost var j := 0;
      while i < |events.entries|
        invariant Valid()
        invariant j <= |es| && i == |EventsOutside(es[..j], ns)|
        invariant events.entries == EventsOutside(es[..j], ns) + es[j..]
        decreases |es| - j
      {
        i := DestroyStep(ns, i, es, j);
        j := j + 1;
      }
      assert es[..j] == es;
    }

    /** One turn of the loop of event_destroy_all_plugin_events: the event
        at `i`, which is the `j`-th of the original map, is erased when its
        name lies in the namespace and passed over otherwise. */
    method DestroyStep(ns: string, i: nat, ghost es: seq<Entry<Event>>, ghost j: nat) returns (next: nat)
      requires Valid() && j < |es| && i == |EventsOutside(es[..j], ns)|
      requires events.entries == EventsOutside(es[..j], ns) + es[j..]
      modifies events
      ensures Valid() && next == |EventsOutside(es[..j + 1], ns)|
      ensures events.entries == EventsOutside(es[..j + 1], ns) + es[j + 1..]
    {
      OutsideStep(es, ns, j);
      Seam(EventsOutside(es[..j], ns), es, j);
      if StartsWith(events.entries[i].value.name, ns) {
        events.EraseCurrent(i);
        next := i;
      } else {
        next := i + 1;
      }
    }
  }
}
