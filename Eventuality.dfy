/**
  The two classes of eventuality/__init__.py. An `Event` keeps a duplicate-free,
  ordered list of callbacks that `+=` (`Add`) and `-=` (`Remove`) update in
  place and that calling the event (`Call`) runs in order. An `EventHandler`
  maps event names to `Event` objects; it is built once from a list, tuple or
  dict and then only looked up.
 */
module Eventuality {
  import opened Wrappers
  import opened Sequences
  import opened Callbacks

  /** Whether every one of `xs` is callable: the loop eventuality runs before
      accepting a list or tuple of callbacks (eventuality/__init__.py:76-78,
      and 31-33 for the values of a dict). */
  method CheckAllCallable(xs: seq<Value>) returns (ok: bool)
    ensures ok <==> AllCallable(xs)
  {
    var i := 0;
    while i < |xs|
      invariant 0 <= i <= |xs|
      invariant forall j :: 0 <= j < i ==> IsCallable(xs[j])
    {
      if !IsCallable(xs[i]) {
        return false;
      }
      i := i + 1;
    }
    return true;
  }

  class Event {
    var callbacks: seq<Value>

    /** The list never holds a callback twice. */
    ghost predicate Valid()
      reads this
    {
      NoDup(callbacks)
    }

    /** `Event(callbacks)`: the given callbacks with later duplicates dropped. */
    constructor (init: seq<Value>)
      ensures Valid() && callbacks == Dedup(init)
      ensures Size() == |Elems(init)|
    {
      callbacks := Dedup(init);
      DedupLength(init);
    }

    /** `len(event)`: the number of distinct callbacks. */
    function Size(): (n: nat)
      reads this
      requires Valid()
      ensures n == |Elems(callbacks)|
    {
      NoDupCard(callbacks);
      |callbacks|
    }

    /** `event += item`. On a TypeError the list is left as it was. */
    method Add(item: Operand) returns (raised: Option<Error>)
      requires Valid()
      modifies this
      ensures Valid()
      ensures Step(callbacks, raised) == Added(old(callbacks), item)
    {
      match item
      case Single(v) =>
        if !IsCallable(v) {
          return Some(TypeError(AddedItemBadType));
        }
        if v !in callbacks {
          callbacks := callbacks + [v];
        }
        raised := None;
      case Many(xs, kind) =>
        var ok := CheckAllCallable(xs);
        if !ok {
          return Some(TypeError(AddedCallbacksNotCallable));
        }
        if kind == Tuple {
          // `tuple + list` fails before anything is assigned
          return Some(TypeError(TupleConcatenation));
        }
        callbacks := Dedup(xs + callbacks);
        raised := None;
    }

    /** `event -= item`. Several items are removed one at a time; the first
        absent one raises ValueError and the removals before it remain. */
    method Remove(item: Operand) returns (raised: Option<Error>)
      requires Valid()
      modifies this
      ensures Valid()
      ensures Step(callbacks, raised) == Removed(old(callbacks), item)
    {
      match item
      case Single(v) =>
        if v !in callbacks {
          return Some(ValueError(NotInList));
        }
        RemovePresent(callbacks, v);
        callbacks := RemoveFirst(callbacks, v);
        raised := None;
      case Many(xs, _) =>
        var i := 0;
        while i < |xs|
          invariant 0 <= i <= |xs|
          invariant Valid()
          invariant RemoveEach(old(callbacks), xs) == RemoveEach(callbacks, xs[i..])
        {
          assert xs[i..][1..] == xs[i + 1..];
          if xs[i] !in callbacks {
            return Some(ValueError(NotInList));
          }
          RemovePresent(callbacks, xs[i]);
          callbacks := RemoveFirst(callbacks, xs[i]);
          i := i + 1;
        }
        raised := None;
    }

    /** `event(*args, **kwargs)`: the invocations made, in order, and how the
        call ended. */
    method Call(args: Args) returns (trace: seq<Invocation>, outcome: Outcome)
      ensures Firing(trace, outcome) == Run(callbacks, args)
    {
      trace := [];
      var i := 0;
      while i < |callbacks|
        invariant 0 <= i <= |callbacks|
        invariant Run(callbacks, args) == Firing(trace + Run(callbacks[i..], args).trace,
                                                 Run(callbacks[i..], args).outcome)
      {
        var callback := callbacks[i];
        assert callbacks[i..][1..] == callbacks[i + 1..];
        if !IsCallable(callback) {
          return trace, Stopped(callback);
        }
        trace := trace + [Invocation(callback, args)];
        if callback.raises {
          return trace, Stopped(callback);
        }
        i := i + 1;
      }
      outcome := Completed;
    }
  }

  /** The `events` argument of the handler: a list or tuple of names, a dict
      from names to callbacks (its entries in insertion order), or anything else. */
  datatype EventsArg =
    | NameList(names: seq<string>)
    | NameTuple(names: seq<string>)
    | NameDict(entries: seq<(string, Operand)>)
    | Unsupported

  /** The message of the AttributeError for an unknown event name. */
  function UndefinedEvent(name: string): string {
    "'" + name + "' is not defined as an event"
  }

  class EventHandler {
    var events: map<string, Event>

    /** Every bound event keeps its callback list duplicate-free. */
    ghost predicate Valid()
      reads this, events.Values
    {
      forall a :: a in events ==> events[a].Valid()
    }

    constructor FromMap(m: map<string, Event>)
      ensures events == m
    {
      events := m;
    }

    /** `EventHandler(events)` (eventuality/__init__.py:23-41). A list or tuple
        binds every name to one shared empty event; a dict binds each name to a
        new event seeded from its value. */
    static method Create(arg: EventsArg) returns (res: Result<EventHandler, Error>)
      requires arg.NameDict? ==> NoDup(Names(arg.entries))
      ensures arg.Unsupported? ==> res == Err(TypeError(EventsBadType))
      ensures res.Ok? ==> res.value.Valid()
      ensures (arg.NameList? || arg.NameTuple?) ==>
                && res.Ok? && fresh(res.value)
                && res.value.events.Keys == Elems(arg.names)
                && res.value.Size() == |Elems(arg.names)|
                && (forall a, b :: a in res.value.events && b in res.value.events ==>
                                     res.value.events[a] == res.value.events[b])
                && (forall a :: a in res.value.events ==>
                                  fresh(res.value.events[a]) && res.value.events[a].callbacks == [])
      ensures arg.NameDict? ==> (res.Ok? <==> DictError(arg.entries).None?)
      ensures arg.NameDict? && res.Err? ==> res.error == DictError(arg.entries).value
      ensures arg.NameDict? && res.Ok? ==>
                && fresh(res.value)
                && res.value.events.Keys == Elems(Names(arg.entries))
                && res.value.Size() == |arg.entries|
                && (forall i :: 0 <= i < |arg.entries| ==>
                      && fresh(res.value.events[arg.entries[i].0])
                      && res.value.events[arg.entries[i].0].Valid()
                      && res.value.events[arg.entries[i].0].callbacks == Dedup(Seed(arg.entries[i].1).value))
                && (forall a, b :: a in res.value.events && b in res.value.events && a != b ==>
                                     res.value.events[a] != res.value.events[b])
    {
      if arg.Unsupported? {
        res := Err(TypeError(EventsBadType));
      } else if arg.NameDict? {
        res := FromDict(arg.entries);
        NoDupCard(Names(arg.entries));
      } else {
        // dict.fromkeys(names, Event()): one Event object for every name
        var shared := new Event([]);
        var h := new EventHandler.FromMap(map n | n in arg.names :: shared);
        assert h.events.Keys == Elems(arg.names);
        res := Ok(h);
      }
    }

    /** The event one dict value is wrapped in (eventuality/__init__.py:28-37):
        `Event([item])` for a callable, `Event(item)` for a list or tuple of
        callables, TypeError otherwise. */
    static method NewEvent(value: Operand) returns (r: Result<Event, Error>)
      ensures r.Ok? <==> Seed(value).Ok?
      ensures r.Err? ==> r.error == Seed(value).error
      ensures r.Ok? ==> fresh(r.value) && r.value.Valid() && r.value.callbacks == Dedup(Seed(value).value)
    {
      match value
      case Single(v) =>
        if !IsCallable(v) {
          return Err(TypeError(ValuesBadType));
        }
        var event := new Event([v]);
        r := Ok(event);
      case Many(xs, _) =>
        var ok := CheckAllCallable(xs);
        if !ok {
          return Err(TypeError(SubValuesNotCallable));
        }
        var event := new Event(xs);
        r := Ok(event);
    }

    /** The dict branch of the construction (eventuality/__init__.py:26-39):
        the entries are visited in order and the first refused value raises
        TypeError. */
    static method FromDict(entries: seq<(string, Operand)>) returns (res: Result<EventHandler, Error>)
      requires NoDup(Names(entries))
      ensures res.Ok? <==> DictError(entries).None?
      ensures res.Err? ==> res.error == DictError(entries).value
      ensures res.Ok? ==>
                && fresh(res.value)
                && (forall a :: a in res.value.events ==> fresh(res.value.events[a]))
                && res.value.Valid()
                && Bound(entries, |entries|, res.value.events)
    {
      var m: map<string, Event> := map[];
      var i := 0;
      while i < |entries|
        invariant 0 <= i <= |entries|
        invariant forall j :: 0 <= j < i ==> Seed(entries[j].1).Ok?
        invariant forall a :: a in m ==> fresh(m[a])
        invariant Bound(entries, i, m)
      {
        var (name, value) := entries[i];
        var made := NewEvent(value);
        if made.Err? {
          DictErrorIsFirst(entries, i);
          return Err(made.error);
        }
        BindNext(entries, i, m, made.value);
        m := m[name := made.value];
        i := i + 1;
      }
      assert Names(entries)[..i] == Names(entries);
      BoundValid(entries, m);
      var h := new EventHandler.FromMap(m);
      res := Ok(h);
    }

    /** `m` binds the first `n` names of the dict to distinct events holding
        the callbacks their values seed. */
    static ghost predicate Bound(entries: seq<(string, Operand)>, n: nat, m: map<string, Event>)
      reads m.Values
    {
      && n <= |entries|
      && m.Keys == Elems(Names(entries)[..n])
      && (forall j :: 0 <= j < n ==> Seed(entries[j].1).Ok? && entries[j].0 in m
                                       && m[entries[j].0].callbacks == Dedup(Seed(entries[j].1).value))
      && (forall a, b :: a in m && b in m && a != b ==> m[a] != m[b])
    }

    /** Every event of a complete binding holds a duplicate-free list. */
    static lemma BoundValid(entries: seq<(string, Operand)>, m: map<string, Event>)
      requires Bound(entries, |entries|, m)
      ensures forall a :: a in m ==> m[a].Valid()
    {
      forall a | a in m ensures m[a].Valid() {
        var ns := Names(entries);
        assert a in ns[..|entries|];
        var j :| 0 <= j < |entries| && ns[j] == a;
        assert m[entries[j].0].callbacks == Dedup(Seed(entries[j].1).value);
      }
    }

    /** Binding the next name to a new event keeps `Bound`. */
    static lemma BindNext(entries: seq<(string, Operand)>, i: nat, m: map<string, Event>, event: Event)
      requires NoDup(Names(entries)) && i < |entries| && Bound(entries, i, m)
      requires event !in m.Values && Seed(entries[i].1).Ok?
      requires event.callbacks == Dedup(Seed(entries[i].1).value)
      ensures Bound(entries, i + 1, m[entries[i].0 := event])
    {
      var ns := Names(entries);
      var name := entries[i].0;
      assert ns[..i + 1] == ns[..i] + [ns[i]];
      forall j | 0 <= j < i ensures entries[j].0 != name {
        assert ns[j] == entries[j].0;
      }
      var m' := m[name := event];
      forall a, b | a in m' && b in m' && a != b ensures m'[a] != m'[b] {
        if a != name && b != name {
          assert m'[a] == m[a] && m'[b] == m[b];
        } else if a == name {
          assert m[b] in m.Values;
        } else {
          assert m[a] in m.Values;
        }
      }
    }

    /** `handler.name` (eventuality/__init__.py:43-52): the event bound to
        `name`, found whether or not it has callbacks, or AttributeError. */
    function Lookup(name: string): (r: Result<Event, Error>)
      reads this, events.Values
      ensures r.Ok? <==> name in events
      ensures r.Ok? ==> r.value == events[name]
      ensures r.Err? ==> r.error == AttributeError(UndefinedEvent(name))
      ensures Valid() && r.Ok? ==> r.value.Valid()
    {
      if name in events then Ok(events[name]) else Err(AttributeError(UndefinedEvent(name)))
    }

    /** `len(handler)` (eventuality/__init__.py:54-55): the number of names
        that `Lookup` finds. */
    function Size(): (n: nat)
      reads this, events.Values
      ensures n == |set name | name in events && Lookup(name).Ok?|
    {
      assert (set name | name in events && Lookup(name).Ok?) == events.Keys;
      |events|
    }
  }
}
