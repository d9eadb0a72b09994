/**
  What an event does to its callback list, stated as functions on values:
  `+=` (`Added`), `-=` (`Removed`), calling the event (`Run`), and how the
  handler turns one value of a dict into an event's callbacks (`Seed`,
  `DictError`). The classes in module Eventuality are proved against these.
 */
module Callbacks {
  import opened Wrappers
  import opened Sequences

  /** An object handed to an event. A `Func` is anything Python's `callable()`
      accepts (a function, a bound method, an `Event`); `raises` says whether
      calling it ends in an exception. A `Data` is any other hashable object. */
  datatype Value = Func(id: nat, raises: bool) | Data(id: nat)

  predicate IsCallable(v: Value) {
    v.Func?
  }

  predicate AllCallable(vs: seq<Value>) {
    forall i :: 0 <= i < |vs| ==> IsCallable(vs[i])
  }

  /** The two sequence types eventuality accepts wherever it takes several callbacks. */
  datatype Container = List | Tuple

  /** The right-hand side of `+=` and `-=`, and a value of the dict given to
      the handler: one object, or a list or tuple of objects. */
  datatype Operand = Single(v: Value) | Many(items: seq<Value>, kind: Container)

  /** The Python exceptions eventuality raises, with their messages. */
  datatype Error = TypeError(message: string) | ValueError(message: string) | AttributeError(message: string)

  const AddedCallbacksNotCallable := "Expected 'callable' type for the added callbacks"
  const AddedItemBadType := "Expected 'callable', 'list', or 'tuple' type for the added item"
  /** Python's own message for `tuple + list`. */
  const TupleConcatenation := "can only concatenate tuple (not \"list\") to tuple"
  /** Python's own message for `list.remove` of an absent item. */
  const NotInList := "list.remove(x): x not in list"
  const SubValuesNotCallable := "Expected 'callable' type for the 'events' argument's sub-values"
  const ValuesBadType := "Expected 'callable', 'list', or 'tuple' type for the 'events' argument's values"
  const EventsBadType := "Expected 'list', 'dict', or 'tuple' type for the 'events' argument"

  /** An event's callback list after an operation, and the exception the
      operation raised, if any. */
  datatype Step = Step(callbacks: seq<Value>, raised: Option<Error>)

  /** `event += item` on an event whose callback list is `cbs`
      (eventuality/__init__.py:71-85). */
  function Added(cbs: seq<Value>, item: Operand): (r: Step)
    ensures r.raised.None? <==> (item.Single? && IsCallable(item.v))
                                || (item.Many? && item.kind == List && AllCallable(item.items))
    ensures r.raised.Some? ==> r.raised.value.TypeError? && r.callbacks == cbs
    ensures NoDup(cbs) ==> NoDup(r.callbacks)
    ensures r.raised.None? && item.Single? ==> Elems(r.callbacks) == Elems(cbs) + {item.v}
    ensures r.raised.None? && item.Many? ==> Elems(r.callbacks) == Elems(item.items) + Elems(cbs)
  {
    match item
    case Single(v) =>
      if IsCallable(v) then Step(AppendNew(cbs, v), None)
      else Step(cbs, Some(TypeError(AddedItemBadType)))
    case Many(xs, kind) =>
      if !AllCallable(xs) then Step(cbs, Some(TypeError(AddedCallbacksNotCallable)))
      else if kind == Tuple then Step(cbs, Some(TypeError(TupleConcatenation)))
      else
        assert kind == List;
        assert Elems(xs + cbs) == Elems(xs) + Elems(cbs) by {
          assert forall y :: y in xs + cbs <==> y in xs || y in cbs;
        }
        Step(Dedup(xs + cbs), None)
  }

  /** Adding a list of callables puts its distinct elements first, in the order
      given, and the old callbacks not in the list after them, in their old
      order: a callback that was already present moves to its place in the list. */
  lemma AddedListMerges(cbs: seq<Value>, xs: seq<Value>)
    requires NoDup(cbs) && AllCallable(xs)
    ensures Added(cbs, Many(xs, List)) == Step(Dedup(xs) + Without(cbs, Elems(xs)), None)
    ensures |Added(cbs, Many(xs, List)).callbacks| == |Elems(xs) + Elems(cbs)|
  {
    DedupAppend(xs, cbs);
    var r := Added(cbs, Many(xs, List)).callbacks;
    NoDupCard(r);
  }

  /** `[f] += [g, h]` gives `[g, h, f]`: the list form puts new callbacks
      ahead of the old ones, where the single form appends. */
  lemma AddedListPrepends(f: Value, g: Value, h: Value)
    requires IsCallable(g) && IsCallable(h)
    requires f != g && g != h && f != h
    ensures Added([f], Many([g, h], List)).callbacks == [g, h, f]
    ensures Added([f], Single(g)).callbacks == [f, g]
  {
    assert [g, h] + [f] == [g, h, f];
    DedupOfNoDup([g, h, f]);
  }

  /** `[f, g] += [g, h]` gives `[g, h, f]`: `g`, already present, moves to its
      place in the added list. */
  lemma AddedListMoves(f: Value, g: Value, h: Value)
    requires IsCallable(g) && IsCallable(h)
    requires f != g && g != h && f != h
    ensures Added([f, g], Many([g, h], List)).callbacks == [g, h, f]
  {
    assert AllCallable([g, h]);
    assert Added([f, g], Many([g, h], List)).callbacks == Dedup([g, h] + [f, g]);
    assert [g, h] + [f, g] == [g, h, f] + [g];
    DedupMovesLast(f, g, h);
  }

  lemma DedupMovesLast(f: Value, g: Value, h: Value)
    requires f != g && g != h && f != h
    ensures Dedup([g, h, f] + [g]) == [g, h, f]
  {
    DedupOfNoDup([g, h, f]);
    assert ([g, h, f] + [g])[..3] == [g, h, f];
  }

  /** `event -= item` on an event whose callback list is `cbs`
      (eventuality/__init__.py:87-93). */
  function Removed(cbs: seq<Value>, item: Operand): (r: Step)
    ensures r.raised.Some? ==> r.raised.value == ValueError(NotInList)
    ensures NoDup(cbs) ==> NoDup(r.callbacks)
  {
    match item
    case Single(v) =>
      if v in cbs then
        RemovePresent(cbs, v);
        Step(RemoveFirst(cbs, v), None)
      else Step(cbs, Some(ValueError(NotInList)))
    case Many(xs, _) => RemoveEach(cbs, xs)
  }

  /** Removing the items of `xs` one by one, left to right, stopping at the
      first one that is not (or no longer) present. Removals done before that
      stay done. */
  function RemoveEach(cbs: seq<Value>, xs: seq<Value>): (r: Step)
    ensures r.raised.Some? ==> r.raised.value == ValueError(NotInList)
    ensures Elems(r.callbacks) <= Elems(cbs) && |r.callbacks| <= |cbs|
    ensures NoDup(cbs) ==> NoDup(r.callbacks)
    decreases |xs|
  {
    if xs == [] then Step(cbs, None)
    else if xs[0] !in cbs then Step(cbs, Some(ValueError(NotInList)))
    else
      RemovePresent(cbs, xs[0]);
      RemoveEach(RemoveFirst(cbs, xs[0]), xs[1..])
  }

  /** Taking a present item out of a callback list: every other entry stays,
      in order, and the list gets one shorter. */
  lemma RemovePresent<T>(s: seq<T>, x: T)
    requires x in s
    ensures |RemoveFirst(s, x)| == |s| - 1
    ensures Elems(RemoveFirst(s, x)) <= Elems(s)
    ensures NoDup(s) ==> NoDup(RemoveFirst(s, x)) && RemoveFirst(s, x) == Without(s, {x})
  {
    var i := IndexOf(s, x);
    var pre, post := s[..i], s[i + 1..];
    assert s == pre + [x] + post;
    assert forall y :: y in pre + post ==> y in s;
    if NoDup(s) {
      NoDupAround(pre, x, post);
      WithoutAround(pre, x, post);
    }
  }

  /** Filtering `x` out of `pre + [x] + post`, where `x` occurs only once, gives `pre + post`. */
  lemma WithoutAround<T>(pre: seq<T>, x: T, post: seq<T>)
    requires x !in pre && x !in post
    ensures Without(pre + [x] + post, {x}) == pre + post
  {
    WithoutAppend(pre + [x], post, {x});
    WithoutLast(pre, x);
    assert x !in Elems(post);
    WithoutAbsent(post, {x});
  }

  lemma WithoutLast<T>(pre: seq<T>, x: T)
    requires x !in pre
    ensures Without(pre + [x], {x}) == pre
  {
    WithoutAppend(pre, [x], {x});
    assert Without([x], {x}) == [] by {
      assert [x][1..] == [];
    }
    assert x !in Elems(pre);
    WithoutAbsent(pre, {x});
    assert pre + [] == pre;
  }

  /** In a duplicate-free `pre + [x] + post`, `x` occurs in neither part and
      dropping it leaves a duplicate-free sequence. */
  lemma NoDupAround<T>(pre: seq<T>, x: T, post: seq<T>)
    requires NoDup(pre + [x] + post)
    ensures x !in pre && x !in post && NoDup(pre + post)
  {
    var s := pre + [x] + post;
    var n := |pre|;
    forall k | 0 <= k < |pre| ensures pre[k] != x {
      assert s[k] == pre[k] && s[n] == x;
    }
    forall k | 0 <= k < |post| ensures post[k] != x {
      assert s[n + 1 + k] == post[k] && s[n] == x;
    }
    var r := pre + post;
    forall a, b | 0 <= a < b < |r| ensures r[a] != r[b] {
      var a' := if a < n then a else a + 1;
      var b' := if b < n then b else b + 1;
      assert r[a] == s[a'] && r[b] == s[b'];
    }
  }

  /** Filtering out elements that do not occur leaves a sequence unchanged. */
  lemma {:induction false} WithoutAbsent<T>(s: seq<T>, xs: set<T>)
    requires Elems(s) !! xs
    ensures Without(s, xs) == s
  {
    if s != [] {
      assert s[0] in Elems(s);
      assert Elems(s[1..]) <= Elems(s);
      WithoutAbsent(s[1..], xs);
    }
  }

  /** Removing a single present item takes out exactly that item; removing an
      absent one raises ValueError and changes nothing. */
  lemma RemovedSingle(cbs: seq<Value>, x: Value)
    requires NoDup(cbs)
    ensures x in cbs ==> Removed(cbs, Single(x)) == Step(Without(cbs, {x}), None)
                         && |Without(cbs, {x})| == |cbs| - 1 && x !in Without(cbs, {x})
    ensures x !in cbs ==> Removed(cbs, Single(x)) == Step(cbs, Some(ValueError(NotInList)))
  {
    if x in cbs {
      RemovePresent(cbs, x);
      assert x !in Elems(Without(cbs, {x}));
    }
  }

  /** Removing several items succeeds exactly when they are distinct and all
      present; the result is then the old list with those items filtered out. */
  lemma {:induction false} RemoveEachSucceeds(cbs: seq<Value>, xs: seq<Value>)
    requires NoDup(cbs)
    ensures RemoveEach(cbs, xs).raised.None? <==> NoDup(xs) && Elems(xs) <= Elems(cbs)
    ensures NoDup(xs) && Elems(xs) <= Elems(cbs) ==>
              RemoveEach(cbs, xs).callbacks == Without(cbs, Elems(xs))
              && |RemoveEach(cbs, xs).callbacks| == |cbs| - |xs|
    decreases |xs|
  {
    if xs == [] {
      WithoutNothing(cbs);
      assert Elems<Value>([]) == {};
    } else {
      var x, rest := xs[0], xs[1..];
      assert xs == [x] + rest;
      ElemsCons(x, rest);
      if x !in cbs {
        assert !(Elems(xs) <= Elems(cbs));
      } else {
        var cbs' := RemoveFirst(cbs, x);
        RemovePresent(cbs, x);
        RemoveEachSucceeds(cbs', rest);
        assert Elems(cbs') == Elems(cbs) - {x};
        if NoDup(xs) {
          NoDupUncons(xs);
        } else {
          // the duplicate is either x itself, found again in `rest`, or one within `rest`
          assert x in rest || !NoDup(rest) by {
            if x !in rest { NoDupCons(x, rest); }
          }
        }
        if NoDup(xs) && Elems(xs) <= Elems(cbs) {
          NoDupUncons(xs);
          WithoutWithout(cbs, {x}, Elems(rest));
        }
      }
    }
  }

  /** When the `k`-th item is the first that cannot be removed, the callback list
      keeps the removals of the items before it, and ValueError is raised. */
  lemma {:induction false} RemoveEachStops(cbs: seq<Value>, xs: seq<Value>, k: nat)
    requires NoDup(cbs) && k < |xs|
    requires NoDup(xs[..k]) && Elems(xs[..k]) <= Elems(cbs)
    requires xs[k] !in Without(cbs, Elems(xs[..k]))
    ensures RemoveEach(cbs, xs) == Step(Without(cbs, Elems(xs[..k])), Some(ValueError(NotInList)))
    decreases k
  {
    if k == 0 {
      assert Elems(xs[..0]) == {};
      WithoutNothing(cbs);
    } else {
      var x, rest := xs[0], xs[1..];
      assert xs[..k] == [x] + rest[..k - 1];
      ElemsCons(x, rest[..k - 1]);
      NoDupUncons(xs[..k]);
      assert xs[..k][1..] == rest[..k - 1];
      var cbs' := RemoveFirst(cbs, x);
      RemovePresent(cbs, x);
      WithoutWithout(cbs, {x}, Elems(rest[..k - 1]));
      RemoveEachStops(cbs', rest, k - 1);
    }
  }

  /** `[f, g] -= [f, h]` removes `f`, then raises ValueError on `h`, leaving `[g]`;
      `[f, g] -= f` leaves `[g]`. */
  lemma RemovedListExample(f: Value, g: Value, h: Value)
    requires f != g && g != h && f != h
    ensures Removed([f, g], Many([f, h], List)) == Step([g], Some(ValueError(NotInList)))
    ensures Removed([f, g], Single(f)) == Step([g], None)
  {
    assert RemoveFirst([f, g], f) == [g];
    assert [f, h][1..] == [h];
    assert RemoveEach([f, g], [f, h]) == RemoveEach([g], [h]);
  }

  /** Which callbacks return normally when called: callables not flagged as raising. */
  predicate Returns(v: Value) {
    IsCallable(v) && !v.raises
  }

  /** The arguments of a call, positional and keyword, as opaque values. */
  datatype Args = Args(positional: seq<Value>, keywords: map<string, Value>)

  /** One callback invoked with some arguments. */
  datatype Invocation = Invocation(callee: Value, args: Args)

  /** How calling an event ended: every callback returned, or the named one
      raised (a non-callable entry raises TypeError without being invoked). */
  datatype Outcome = Completed | Stopped(culprit: Value)

  datatype Firing = Firing(trace: seq<Invocation>, outcome: Outcome)

  /** Each of `cbs`, in order, invoked with `args`. */
  function Invocations(cbs: seq<Value>, args: Args): (t: seq<Invocation>)
    ensures |t| == |cbs|
    ensures forall i :: 0 <= i < |cbs| ==> t[i] == Invocation(cbs[i], args)
  {
    seq(|cbs|, i requires 0 <= i < |cbs| => Invocation(cbs[i], args))
  }

  /** Calling an event whose callback list is `cbs` with `args`
      (eventuality/__init__.py:98-100). */
  function Run(cbs: seq<Value>, args: Args): (r: Firing)
    ensures |r.trace| <= |cbs|
    ensures forall i :: 0 <= i < |r.trace| ==> r.trace[i] == Invocation(cbs[i], args)
    ensures r.outcome.Completed? ==> |r.trace| == |cbs|
    ensures r.outcome.Stopped? ==>
              || (|r.trace| < |cbs| && r.outcome.culprit == cbs[|r.trace|] && !IsCallable(cbs[|r.trace|]))
              || (0 < |r.trace| && r.outcome.culprit == cbs[|r.trace| - 1] && IsCallable(cbs[|r.trace| - 1]) && cbs[|r.trace| - 1].raises)
    decreases |cbs|
  {
    if cbs == [] then Firing([], Completed)
    else if !IsCallable(cbs[0]) then Firing([], Stopped(cbs[0]))
    else if cbs[0].raises then Firing([Invocation(cbs[0], args)], Stopped(cbs[0]))
    else
      var rest := Run(cbs[1..], args);
      Firing([Invocation(cbs[0], args)] + rest.trace, rest.outcome)
  }

  /** When every callback returns, each is invoked exactly once, in stored
      order, with the same arguments. */
  lemma {:induction false} RunCompletes(cbs: seq<Value>, args: Args)
    requires forall i :: 0 <= i < |cbs| ==> Returns(cbs[i])
    ensures Run(cbs, args) == Firing(Invocations(cbs, args), Completed)
    decreases |cbs|
  {
    if cbs != [] {
      RunCompletes(cbs[1..], args);
      assert Invocations(cbs, args) == [Invocation(cbs[0], args)] + Invocations(cbs[1..], args);
    }
  }

  /** When the `k`-th callback is the first that does not return, the ones
      before it ran in order, it was invoked if it is callable, and none after
      it ran. */
  lemma {:induction false} RunStops(cbs: seq<Value>, args: Args, k: nat)
    requires k < |cbs| && !Returns(cbs[k])
    requires forall i :: 0 <= i < k ==> Returns(cbs[i])
    ensures Run(cbs, args) == Firing(Invocations(cbs[..k], args)
                                     + (if IsCallable(cbs[k]) then [Invocation(cbs[k], args)] else []),
                                     Stopped(cbs[k]))
    decreases k
  {
    if k > 0 {
      RunStops(cbs[1..], args, k - 1);
      InvocationsCons(cbs, args, k);
    }
  }

  lemma InvocationsCons(cbs: seq<Value>, args: Args, k: nat)
    requires 0 < k <= |cbs|
    ensures Invocations(cbs[..k], args) == [Invocation(cbs[0], args)] + Invocations(cbs[1..][..k - 1], args)
  {
    assert cbs[1..][..k - 1] == cbs[..k][1..];
  }

  /** Calling completes exactly when every callback returns. */
  lemma {:induction false} RunCompletesIff(cbs: seq<Value>, args: Args)
    ensures Run(cbs, args).outcome.Completed? <==> forall i :: 0 <= i < |cbs| ==> Returns(cbs[i])
    decreases |cbs|
  {
    if cbs != [] {
      RunCompletesIff(cbs[1..], args);
      assert forall i :: 1 <= i < |cbs| ==> cbs[i] == cbs[1..][i - 1];
    }
  }

  /** The callbacks an event is created with for one dict value
      (eventuality/__init__.py:28-37): a callable becomes a one-element list,
      a list or tuple of callables is taken as it is, anything else is refused. */
  function Seed(value: Operand): (r: Result<seq<Value>, Error>)
    ensures r.Ok? <==> (value.Single? && IsCallable(value.v)) || (value.Many? && AllCallable(value.items))
    ensures r.Ok? ==> AllCallable(r.value)
    ensures r.Ok? && value.Single? ==> r.value == [value.v]
    ensures r.Ok? && value.Many? ==> r.value == value.items
    ensures r.Err? ==> r.error.TypeError?
  {
    match value
    case Single(v) =>
      if IsCallable(v) then Ok([v]) else Err(TypeError(ValuesBadType))
    case Many(xs, _) =>
      if AllCallable(xs) then Ok(xs) else Err(TypeError(SubValuesNotCallable))
  }

  /** The names of a dict given as its entries in insertion order. */
  function Names(entries: seq<(string, Operand)>): (ns: seq<string>)
    ensures |ns| == |entries|
    ensures forall i :: 0 <= i < |entries| ==> ns[i] == entries[i].0
  {
    seq(|entries|, i requires 0 <= i < |entries| => entries[i].0)
  }

  /** The exception the dict form of the handler's construction raises: that of
      the first entry, in insertion order, whose value is refused. */
  function DictError(entries: seq<(string, Operand)>): (r: Option<Error>)
    ensures r.None? <==> forall i :: 0 <= i < |entries| ==> Seed(entries[i].1).Ok?
    decreases |entries|
  {
    if entries == [] then None
    else if Seed(entries[0].1).Err? then Some(Seed(entries[0].1).error)
    else
      var r := DictError(entries[1..]);
      assert forall i :: 1 <= i < |entries| ==> entries[i] == entries[1..][i - 1];
      r
  }

  /** The error raised is that of the first refused entry. */
  lemma {:induction false} DictErrorIsFirst(entries: seq<(string, Operand)>, k: nat)
    requires k < |entries| && Seed(entries[k].1).Err?
    requires forall i :: 0 <= i < k ==> Seed(entries[i].1).Ok?
    ensures DictError(entries) == Some(Seed(entries[k].1).error)
    decreases k
  {
    if k > 0 {
      DictErrorIsFirst(entries[1..], k - 1);
    }
  }
}
