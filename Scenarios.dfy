/**
  Client code that uses only the contracts of the classes: the three
  demonstrations of `main()` (eventuality/__init__.py:103-137) and the
  behaviours of the handler that a caller can observe.
 */
module Scenarios {
  import opened Wrappers
  import opened Sequences
  import opened Callbacks
  import opened Eventuality

  /** The demo's message, passed as the one positional argument. */
  const Message := Args([Data(0)], map[])

  /** Two distinct callbacks that return: adding them as a list to an empty
      event stores them as given, and calling runs both in that order. */
  lemma TwoCallbacks(a: Value, b: Value, args: Args)
    requires Returns(a) && Returns(b) && a != b
    ensures Dedup([a, b]) == [a, b]
    ensures Added([], Many([a, b], List)) == Step([a, b], None)
    ensures Run([a, b], args) == Firing([Invocation(a, args), Invocation(b, args)], Completed)
  {
    DedupOfNoDup([a, b]);
    assert [a, b] + [] == [a, b];
    RunCompletes([a, b], args);
  }

  /** Build a handler from names and add `print`; calling runs it; after
      `-= print` calling runs nothing. */
  method DynamicSingleCallback(printMessage: Value)
    requires Returns(printMessage)
  {
    var res := EventHandler.Create(NameList(["on_event"]));
    var handler := res.value;
    var event := handler.Lookup("on_event").value;
    var raised := event.Add(Single(printMessage));
    assert raised == None && event.callbacks == [printMessage];
    var trace, outcome := event.Call(Message);
    assert trace == [Invocation(printMessage, Message)] && outcome == Completed;
    raised := event.Remove(Single(printMessage));
    assert raised == None && event.callbacks == [];
    trace, outcome := event.Call(Args([], map[]));
    assert trace == [] && outcome == Completed;
  }

  /** Add a list of two callbacks to an empty event; calling runs both in order. */
  method DynamicCallbackList(printMessage: Value, printPolitely: Value)
    requires Returns(printMessage) && Returns(printPolitely) && printMessage != printPolitely
  {
    var res := EventHandler.Create(NameList(["on_event"]));
    var handler := res.value;
    var event := handler.Lookup("on_event").value;
    TwoCallbacks(printMessage, printPolitely, Message);
    var raised := event.Add(Many([printMessage, printPolitely], List));
    assert event.callbacks == [printMessage, printPolitely];
    var trace, outcome := event.Call(Message);
    assert trace == [Invocation(printMessage, Message), Invocation(printPolitely, Message)];
    assert outcome == Completed;
  }

  /** Name the callbacks up front with a dict; calling runs both in order. */
  method DictOfCallbacks(printMessage: Value, printPolitely: Value)
    requires Returns(printMessage) && Returns(printPolitely) && printMessage != printPolitely
  {
    var entries := [("on_event", Many([printMessage, printPolitely], List))];
    assert Names(entries) == ["on_event"];
    var res := EventHandler.Create(NameDict(entries));
    assert Seed(entries[0].1).Ok?;
    var handler := res.value;
    var event := handler.Lookup("on_event").value;
    TwoCallbacks(printMessage, printPolitely, Message);
    assert event.callbacks == [printMessage, printPolitely];
    var trace, outcome := event.Call(Message);
    assert trace == [Invocation(printMessage, Message), Invocation(printPolitely, Message)];
  }

  /** With a list of names every name is bound to one shared event, so a
      callback added under one name is also run under the other. */
  method SharedEventForNames(f: Value)
    requires Returns(f)
  {
    var res := EventHandler.Create(NameList(["on_open", "on_close"]));
    var handler := res.value;
    assert "on_open" in handler.events && "on_close" in handler.events;
    var onOpen := handler.Lookup("on_open").value;
    var raised := onOpen.Add(Single(f));
    var onClose := handler.Lookup("on_close").value;
    assert onClose == onOpen && onClose.callbacks == [f];
    var trace, outcome := onClose.Call(Message);
    assert trace == [Invocation(f, Message)];
  }

  /** An event with no callbacks is still found; an unknown name is not, and
      a handler built from a list of names counts each name once. */
  method LookupAndLength()
  {
    var res := EventHandler.Create(NameTuple(["on_event", "on_event"]));
    var handler := res.value;
    assert handler.Lookup("on_event").Ok? && handler.Lookup("on_event").value.callbacks == [];
    assert handler.Lookup("on_other") == Err(AttributeError(UndefinedEvent("on_other")));
    assert Elems(["on_event", "on_event"]) == {"on_event"};
    assert handler.Size() == 1;
  }

  /** `handler.on_event += f` on any handler: the looked-up event accepts the
      callback, which is then its last entry. */
  method AddThroughHandler(handler: EventHandler, f: Value)
    requires handler.Valid() && "on_event" in handler.events
    requires IsCallable(f) && f !in handler.events["on_event"].callbacks
    modifies handler.events.Values
  {
    var event := handler.Lookup("on_event").value;
    var before := event.callbacks;
    var raised := event.Add(Single(f));
    assert raised == None && event.callbacks == before + [f];
  }

  /** Adding a tuple of callables raises TypeError and leaves the event as it was. */
  method TupleIsRefused(f: Value, g: Value)
    requires Returns(f) && Returns(g)
  {
    var event := new Event([f]);
    var raised := event.Add(Many([g], Tuple));
    assert raised == Some(TypeError(TupleConcatenation)) && event.callbacks == [f];
  }

  /** Removing `[f, h]` from `[f, g]` takes `f` out, then raises on `h`. */
  method PartialRemoval(f: Value, g: Value, h: Value)
    requires f != g && g != h && f != h
  {
    DedupOfNoDup([f, g]);
    var event := new Event([f, g]);
    RemovedListExample(f, g, h);
    var raised := event.Remove(Many([f, h], List));
    assert raised == Some(ValueError(NotInList)) && event.callbacks == [g];
  }
}
