# Eventuality, modelled in Dafny

Eventuality is a small observer registry for Python. An `Event` holds an ordered
list of callbacks with no duplicates. `+=` adds one callback or a list of them,
`-=` removes one or several, and calling the event calls every callback in
order. An `EventHandler` maps event names to `Event` objects. It is built from a
list or tuple of names, or from a dict of names to callbacks, and it hands out
an event when asked for a name.

This project models both classes as Dafny classes and proves what each
operation does to the callback list.

- `Wrappers.dfy`: `Option` and `Result`.
- `Sequences.dfy`: generic duplicate-free sequences.
  - `Dedup` is `list(dict.fromkeys(xs))`.
  - `AppendNew` is the single-callback add.
  - `RemoveFirst` is `list.remove`.
  - `Without` is an order-keeping filter that the other operations are compared with.
- `Callbacks.dfy`: the callback values and the Python exceptions with their
  messages. It gives each operation as a function on the callback list: `Added`
  for `+=`, `Removed` and `RemoveEach` for `-=`, `Run` for calling an event.
  `Seed` and `DictError` give the per-value rules of dict construction. The
  lemmas about these functions are here too.
- `Eventuality.dfy`: `class Event`, whose field `callbacks` the methods `Add`,
  `Remove` and `Call` read and update in place, and `class EventHandler`, whose
  field `events` maps names to `Event` references.
- `Scenarios.dfy`: client methods that use only the contracts. They cover the
  three demonstrations of `main()`, the shared event behind a list of names,
  `handler.on_event += f` on any valid handler,
  a tuple being refused, and removal that stops halfway.

Callbacks are opaque values: `Func(id, raises)` is anything `callable()`
accepts, and `Data(id)` is any other hashable object. Equality of values stands
for Python's `==`. Calling an event produces a trace of invocations, each a
callback with the arguments it got, and an outcome. The outcome is `Completed`,
or `Stopped(culprit)` when a callback flagged `raises` (or a non-callable entry)
ends the call.

The model follows the code in four places where a reader might expect something
else:

- **One shared event.** A list or tuple of names gives every name the same
  `Event` object (`dict.fromkeys(events, Event())`, line 25). The handler's map
  holds object references, so `Create` states the sharing and
  `Scenarios.SharedEventForNames` shows a callback added under one name running
  under another.
- **A list add moves callbacks.** Adding a list computes
  `dedup(item + old)` (line 81). A callback already present moves to its place
  in the list: `[f, g] += [g, h]` gives `[g, h, f]`. Adding a single callback
  appends it.
- **A tuple add always fails.** Adding a tuple passes the callable check and
  then raises `TypeError` at the concatenation `tuple + list`. The list is left
  unchanged.
- **Errors do not name the element.** The `TypeError` messages do not say which
  element was not callable. The model carries the exact messages.

The dict given to the handler is modelled as its entries in insertion order.
Every Python dict has distinct keys, so `Create` and `FromDict` require distinct
names. The order decides which entry's error is raised first.

## Model

| member | source | states |
|---|---|---|
| `Sequences.Dedup` | eventuality/__init__.py:67-69 | the deduplicated list has no duplicates, has exactly the elements of the input, and is no longer than it |
| `Sequences.DedupKeepsFirstOccurrenceOrder` | eventuality/__init__.py:68-69 | entries of the deduplicated list appear in the order of their first occurrence in the input |
| `Sequences.DedupLength` | eventuality/__init__.py:67-69 | the deduplicated list is as long as the number of distinct elements, so `len(Event(cbs))` counts each distinct callback once |
| `Sequences.DedupOfNoDup` | eventuality/__init__.py:69 | deduplicating a list with no duplicates returns it unchanged |
| `Sequences.DedupAppend` | eventuality/__init__.py:81 | `dedup(a + b)`, where `b` has no duplicates, is `dedup(a)` followed by the elements of `b` not in `a`, in their order in `b` |
| `Sequences.AppendNew` | eventuality/__init__.py:73-74 | adding one callback leaves the list unchanged if it is present; otherwise it appends it at the end with the earlier entries untouched. Either way the set of elements gains the callback and no duplicate appears |
| `Sequences.RemoveFirst` | eventuality/__init__.py:92 | `list.remove` drops the first occurrence of the item and keeps everything before and after it in order |
| `Sequences.Without` | eventuality/__init__.py:81 | the filter keeps exactly the elements outside the removed set and keeps a list duplicate-free |
| `Sequences.WithoutWithout` | eventuality/__init__.py:89-90 | removing one set of items and then another is the same as removing their union |
| `Callbacks.Added` | eventuality/__init__.py:71-85 | `+=` succeeds exactly for a callable or a list of callables; every `TypeError` (bad type, non-callable element, tuple) leaves the list unchanged; success keeps the list duplicate-free and adds the new callbacks to its elements |
| `Callbacks.AddedListMerges` | eventuality/__init__.py:75-81 | a list add gives the distinct callbacks of the list in the given order, then the old callbacks not in the list in their old order; its length is the size of the union |
| `Callbacks.AddedListPrepends` | eventuality/__init__.py:71-81 | `[f] += [g, h]` gives `[g, h, f]`, while `[f] += g` gives `[f, g]` |
| `Callbacks.AddedListMoves` | eventuality/__init__.py:81 | `[f, g] += [g, h]` gives `[g, h, f]`: the present `g` moves to its place in the added list |
| `Callbacks.Removed` | eventuality/__init__.py:87-93 | `-=` raises only `ValueError` with Python's `list.remove` message, and keeps the list duplicate-free |
| `Callbacks.RemoveEach` | eventuality/__init__.py:88-90 | removing several items one at a time never adds an element, never lengthens the list and keeps it duplicate-free |
| `Callbacks.RemovePresent` | eventuality/__init__.py:92 | removing a present item shortens the list by one; on a duplicate-free list it filters out exactly that item |
| `Callbacks.RemovedSingle` | eventuality/__init__.py:91-92 | removing a present callback takes out exactly that callback, keeps the order of the rest and shortens the list by one; an absent one raises `ValueError` and changes nothing |
| `Callbacks.RemoveEachSucceeds` | eventuality/__init__.py:88-90 | removing several items succeeds if and only if they are distinct and all present; the result is then the old list without them, shorter by their number |
| `Callbacks.RemoveEachStops` | eventuality/__init__.py:88-90 | when item `k` is the first that cannot be removed, `ValueError` is raised and the removals of items `0..k-1` stay in effect |
| `Callbacks.RemovedListExample` | eventuality/__init__.py:87-93 | `[f, g] -= [f, h]` leaves `[g]` and raises; `[f, g] -= f` leaves `[g]` |
| `Callbacks.Run` | eventuality/__init__.py:98-100 | a call invokes a prefix of the stored callbacks, in order, each with the call's arguments; a completed call invoked all of them; a stopped call ended at the first non-callable entry (not invoked) or at the last invoked callback, which raised |
| `Callbacks.RunCompletes` | eventuality/__init__.py:98-100 | when every callback returns, each is invoked exactly once, in stored order, with the same arguments |
| `Callbacks.RunStops` | eventuality/__init__.py:98-100 | when callback `k` is the first to raise, callbacks `0..k-1` ran in order, callback `k` was invoked if it is callable, and no later callback ran |
| `Callbacks.RunCompletesIff` | eventuality/__init__.py:98-100 | a call completes if and only if every stored callback returns |
| `Callbacks.Seed` | eventuality/__init__.py:28-37 | a dict value is accepted exactly when it is a callable (which becomes `[item]`) or a list or tuple of callables (taken as given); otherwise `TypeError` |
| `Callbacks.DictError` | eventuality/__init__.py:26-37 | dict construction raises nothing exactly when every value is accepted |
| `Callbacks.DictErrorIsFirst` | eventuality/__init__.py:27-37 | the error raised is that of the first refused entry in insertion order |
| `Eventuality.CheckAllCallable` | eventuality/__init__.py:76-78 | the validation loop answers true exactly when every element is callable |
| `Eventuality.Event.constructor` | eventuality/__init__.py:67-69 | a new event holds the given callbacks with later duplicates dropped, and its length is the number of distinct callbacks given |
| `Eventuality.Event.Size` | eventuality/__init__.py:95-96 | `len(event)` is the number of distinct callbacks |
| `Eventuality.Event.Add` | eventuality/__init__.py:71-85 | `+=` changes the list and raises exactly as `Added` says, and keeps it duplicate-free |
| `Eventuality.Event.Remove` | eventuality/__init__.py:87-93 | `-=` changes the list and raises exactly as `Removed` says, including the partial removal, and keeps it duplicate-free |
| `Eventuality.Event.Call` | eventuality/__init__.py:98-100 | the loop produces exactly the trace and outcome of `Run` on the stored callbacks |
| `Eventuality.EventHandler.Create` | eventuality/__init__.py:23-41 | a list or tuple binds every distinct name to one shared, new, empty event, and the handler's length is the number of distinct names; a dict succeeds exactly when `DictError` is none, binding each name to its own new event seeded from its value (no two names share an event), with one name per entry, and otherwise raises that error; every handler built holds only duplicate-free events; any other argument raises `TypeError` |
| `Eventuality.EventHandler.NewEvent` | eventuality/__init__.py:28-37 | one dict value gives a new event holding its deduplicated callbacks, or the `TypeError` of `Seed` |
| `Eventuality.EventHandler.FromDict` | eventuality/__init__.py:26-39 | the dict loop succeeds exactly when no value is refused, binds the names to distinct new events with their seeded callbacks, and otherwise raises the first refused entry's error |
| `Eventuality.EventHandler.Lookup` | eventuality/__init__.py:43-52 | a name is found if and only if it is bound, whatever the event's number of callbacks, and the bound event is returned; an unknown name gives `AttributeError` with the message "'name' is not defined as an event"; on a valid handler the event returned is valid |
| `Eventuality.EventHandler.Size` | eventuality/__init__.py:54-55 | `len(handler)` is the number of names that lookup finds |

## Left out

- Python call mechanics: `*args`/`**kwargs` forwarding, callback return values and side effects. Arguments are one opaque `Args` value passed unchanged to every callback.
- Whether a callback raises is a fixed flag on the callback value. In Python it may depend on the arguments.
- Callbacks that change the event while it is being called (re-entrancy). The model runs over the list as it was when the call started.
- The internals of `callable()`, hashing and `==`. Values are abstracted into callable and non-callable, with decidable equality. Unhashable values, which make `dict.fromkeys` raise, are not modelled.
- `__getattr__` reflection: it only runs when normal attribute lookup fails, so names such as `_events` or method names never reach it. `Lookup` models the explicit lookup. The write-back that `handler.name += f` performs rebinds the name to the same object and is not modelled.
- The dict form keeps and rewrites the caller's own dict in place (lines 29, 35, 39). When a later entry is refused, earlier values of that dict are already wrapped in events. The model returns the error and does not model the caller's dict.
- Event names are strings. Python accepts any hashable key.
- The order of keys in the handler's map is not modelled. Only lookup and length observe the map.
- `main()` is a printing demo. Its three scenarios are the client methods in `Scenarios.dfy`.
- `setup.py` is packaging metadata and is not part of this model.
- Concurrency: the library has none.
