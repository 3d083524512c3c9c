/** The state of an `EventBus` as a value: the `handlers` map from a type's
    identity to its handler set, the functions that give each operation's new
    state, and the calls `post` makes. The class in module Bus is proved
    against these functions. */
module Registry {
  import opened Events
  import opened HandlerSets

  /** The `AnyMap` of an `EventBus`, keyed by the type the handlers observe. */
  type Handlers = map<TypeTag, HandlerSet>

  ghost predicate Valid(m: Handlers)
  {
    forall t | t in m :: WellKeyed(m[t])
  }

  /** The handlers of type `t`; an absent entry reads as no handlers. */
  function Lookup(m: Handlers, t: TypeTag): (s: HandlerSet)
    ensures Valid(m) ==> WellKeyed(s)
    ensures t in m ==> s == m[t]
    ensures t !in m ==> s == map[]
  {
    if t in m then m[t] else map[]
  }

  /** What `dispatch` returns for type `t`: the set's `len()`, or 0 without a
      set. It is zero exactly when the entry is absent or empty. */
  function Count(m: Handlers, t: TypeTag): (n: nat)
    ensures n == 0 <==> t !in m || m[t] == map[]
    ensures n == |Lookup(m, t)|
  {
    if t in m then |m[t]| else 0
  }

  /** `register::<T>(h)`: add `h` to the existing set of `t`, or create a set
      holding just `h`. */
  function Register(m: Handlers, t: TypeTag, h: Handler): (r: Handlers)
    requires Valid(m)
    ensures Valid(r)
    ensures t in r
    ensures forall g :: Contains(r[t], g) <==> Contains(Lookup(m, t), g) || SameHandler(g, h)
    ensures r[t] == Insert(Lookup(m, t), h)
    ensures t !in m ==> r[t] == map[Identity(h) := h]
    ensures Contains(Lookup(m, t), h) ==> r == m
    ensures r - {t} == m - {t}
  {
    if t in m then
      m[t := Insert(m[t], h)]
    else
      m[t := Insert(map[], h)]
  }

  /** `unregister::<T>(h)`: remove the handler equal to `h` from the set of
      `t`, when there is such a set. */
  function Unregister(m: Handlers, t: TypeTag, h: Handler): (r: Handlers)
    requires Valid(m)
    ensures Valid(r)
    ensures t in r <==> t in m
    ensures forall g :: Contains(Lookup(r, t), g) <==> Contains(Lookup(m, t), g) && !SameHandler(g, h)
    ensures t in m ==> r[t] == Remove(m[t], h)
    ensures !Contains(Lookup(m, t), h) ==> r == m
    ensures r - {t} == m - {t}
  {
    if t in m then
      var s := Remove(m[t], h);
      assert Lookup(m[t := s], t) == s;
      m[t := s]
    else
      m
  }

  /** `unregister_all::<T>()`: drop the whole entry of `t`. */
  function UnregisterAll(m: Handlers, t: TypeTag): (r: Handlers)
    requires Valid(m)
    ensures Valid(r)
    ensures Count(r, t) == 0 && t !in r
    ensures r - {t} == m - {t}
  {
    m - {t}
  }

  /** The calls one `dispatch(v)` makes: every handler of `v`'s exact type. */
  function CallsFor(m: Handlers, v: Value): set<Invocation>
  {
    Calls(Lookup(m, TypeOf(v)), v)
  }

  /** The arguments `post(v)` hands to `dispatch`, in order: `v`, then, only
      when that found no handler, `v` wrapped in a `DeadEvent`. */
  function Dispatched(m: Handlers, v: Value): seq<Value>
  {
    if Count(m, TypeOf(v)) == 0 then [v, Wrap(v)] else [v]
  }

  /** Every call `post(v)` makes, over both dispatches. */
  function Delivered(m: Handlers, v: Value): set<Invocation>
  {
    CallsFor(m, v) + (if Count(m, TypeOf(v)) == 0 then CallsFor(m, Wrap(v)) else {})
  }

  /** A dispatch over an absent or empty set makes no call. */
  lemma NoHandlersNoCalls(m: Handlers, v: Value)
    requires Valid(m)
    requires Count(m, TypeOf(v)) == 0
    ensures CallsFor(m, v) == {}
  {
    CallsCount(Lookup(m, TypeOf(v)), v);
  }

  /** `post` falls back to a `DeadEvent` iff the first dispatch returned 0, and
      then makes only the fallback's calls; otherwise it makes only the first
      dispatch's calls. An absent and an empty set behave the same. */
  lemma {:induction false} FallbackIffUnrouted(m: Handlers, v: Value)
    requires Valid(m)
    ensures |Dispatched(m, v)| == 2 <==> Count(m, TypeOf(v)) == 0
    ensures Count(m, TypeOf(v)) != 0 ==> Delivered(m, v) == CallsFor(m, v)
    ensures Count(m, TypeOf(v)) == 0 ==> Delivered(m, v) == CallsFor(m, Wrap(v))
    ensures Delivered(m - {TypeOf(v)}, v) == Delivered(m[TypeOf(v) := map[]], v)
  {
    if Count(m, TypeOf(v)) == 0 {
      NoHandlersNoCalls(m, v);
    }
    var t := TypeOf(v);
    var absent, empty := m - {t}, m[t := map[]];
    NoHandlersNoCalls(absent, v);
    NoHandlersNoCalls(empty, v);
    assert Lookup(absent, DeadEventType) == Lookup(empty, DeadEventType);
  }

  /** The fallback is one level deep: `post` dispatches at most twice, first
      `v` itself, and every call it makes receives `v` or `v`'s `DeadEvent`,
      never a `DeadEvent` of a `DeadEvent`. When no one handles `DeadEvent`
      either, the value is dropped without any call. */
  lemma {:induction false} FallbackOneLevel(m: Handlers, v: Value)
    requires Valid(m)
    ensures 1 <= |Dispatched(m, v)| <= 2 && Dispatched(m, v)[0] == v
    ensures forall c | c in Delivered(m, v) :: c.arg == v || c.arg == Wrap(v)
    ensures forall c | c in Delivered(m, v) :: c.arg == Wrap(v) ==> Count(m, TypeOf(v)) == 0
    ensures Count(m, TypeOf(v)) == 0 && Count(m, DeadEventType) == 0 ==> Delivered(m, v) == {}
  {
    FallbackIffUnrouted(m, v);
    forall c | c in Delivered(m, v)
      ensures c.arg == v || c.arg == Wrap(v)
      ensures c.arg == Wrap(v) ==> Count(m, TypeOf(v)) == 0
    {
      if Count(m, TypeOf(v)) == 0 {
        CallsMembership(Lookup(m, DeadEventType), Wrap(v), c);
      } else {
        CallsMembership(Lookup(m, TypeOf(v)), v, c);
      }
    }
    if Count(m, TypeOf(v)) == 0 && Count(m, DeadEventType) == 0 {
      NoHandlersNoCalls(m, Wrap(v));
    }
  }

  /** A `DeadEvent` handler reached through `post(v)` can recover `v` by
      downcasting to `v`'s type, and finds nothing under any other type. */
  lemma {:induction false} FallbackCarriesPosted(m: Handlers, v: Value, c: Invocation, u: TypeTag)
    requires Valid(m)
    requires c in Delivered(m, v) && c.arg != v
    ensures c.arg.Dead?
    ensures Downcast(c.arg.event, TypeOf(v)) == Some(v)
    ensures u != TypeOf(v) ==> Downcast(c.arg.event, u) == None
  {
    FallbackOneLevel(m, v);
    DowncastRecoversPosted(v, u);
  }

  /** Registering the same handler a second time changes nothing. */
  lemma RegisterTwice(m: Handlers, t: TypeTag, h: Handler)
    requires Valid(m)
    ensures Register(Register(m, t, h), t, h) == Register(m, t, h)
  {
  }

  /** The calls in `cs` made to a handler equal to `h`. */
  function CallsTo(cs: set<Invocation>, h: Handler): set<Invocation>
  {
    set c | c in cs && SameHandler(c.handler, h)
  }

  /** After `register::<T>(h)`, posting a `T` calls exactly one handler equal
      to `h`: the one registered first under that identity. Together with the
      duplicate-free log of `Bus.EventBus.Post`, a handler registered twice
      runs once. */
  lemma {:induction false} RegisteredRunsOnce(m: Handlers, v: Value, h: Handler)
    requires Valid(m)
    ensures CallsTo(Delivered(Register(m, TypeOf(v), h), v), h)
         == {Invocation(Register(m, TypeOf(v), h)[TypeOf(v)][Identity(h)], v)}
    ensures !Contains(Lookup(m, TypeOf(v)), h) ==>
      CallsTo(Delivered(Register(m, TypeOf(v), h), v), h) == {Invocation(h, v)}
  {
    var t := TypeOf(v);
    var r := Register(m, t, h);
    var s := r[t];
    assert Contains(s, h);
    var stored := s[Identity(h)];
    assert Count(r, t) != 0;
    FallbackIffUnrouted(r, v);
    assert Delivered(r, v) == Calls(s, v);
    forall c | c in CallsTo(Calls(s, v), h)
      ensures c == Invocation(stored, v)
    {
      CallsMembership(s, v, c);
    }
    CallsMembership(s, v, Invocation(stored, v));
  }

  /** After `unregister::<T>(h)`, posting a `T` calls no handler equal to `h`
      with the posted value. */
  lemma {:induction false} UnregisteredNeverRuns(m: Handlers, v: Value, h: Handler)
    requires Valid(m)
    ensures forall c | c in Delivered(Unregister(m, TypeOf(v), h), v) && c.arg == v ::
      !SameHandler(c.handler, h)
  {
    var r := Unregister(m, TypeOf(v), h);
    forall c | c in Delivered(r, v) && c.arg == v
      ensures !SameHandler(c.handler, h)
    {
      FallbackOneLevel(r, v);
      if Count(r, TypeOf(v)) == 0 {
        CallsMembership(Lookup(r, DeadEventType), Wrap(v), c);
      } else {
        FallbackIffUnrouted(r, v);
        CallsMembership(Lookup(r, TypeOf(v)), v, c);
      }
    }
  }

  /** `unregister_all::<T>()` leaves every other type's deliveries as they
      were, unless it removed the `DeadEvent` handlers that the other type's
      fallback would reach. */
  lemma {:induction false} UnregisterAllIsolated(m: Handlers, t: TypeTag, v: Value)
    requires Valid(m)
    requires TypeOf(v) != t
    requires t == DeadEventType ==> Count(m, TypeOf(v)) != 0
    ensures Delivered(UnregisterAll(m, t), v) == Delivered(m, v)
  {
    var r := UnregisterAll(m, t);
    assert Lookup(r, TypeOf(v)) == Lookup(m, TypeOf(v));
    if Count(m, TypeOf(v)) == 0 {
      assert Lookup(r, DeadEventType) == Lookup(m, DeadEventType);
    }
  }

  /** After `unregister_all::<T>()`, posting a `T` reaches no handler of `T`:
      only the `DeadEvent` fallback can run. */
  lemma {:induction false} UnregisterAllSilences(m: Handlers, v: Value)
    requires Valid(m)
    ensures forall c | c in Delivered(UnregisterAll(m, TypeOf(v)), v) :: c.arg == Wrap(v)
  {
    var r := UnregisterAll(m, TypeOf(v));
    FallbackOneLevel(r, v);
    NoHandlersNoCalls(r, v);
  }
}
