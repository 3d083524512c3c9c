/** Concrete runs of the bus, stated on the registry model: the two unit tests
    of `src/lib.rs` and small routing examples. */
module Scenarios {
  import opened Events
  import opened HandlerSets
  import opened Registry
  import Bus

  // Type identities of the user types the runs post.
  const StringType := 0
  const StrType := 1
  const I32Type := 2
  const U64Type := 3
  const F64Type := 4
  const SenderType := 5

  /** A set holding one handler makes one call. */
  lemma CallsOfOne(h: Handler, arg: Value)
    ensures Calls(map[Identity(h) := h], arg) == {Invocation(h, arg)}
  {
    var s := map[Identity(h) := h];
    assert Identity(h) in s && s[Identity(h)] == h;
    assert Invocation(h, arg) in Calls(s, arg);
  }

  /** `eventbus_dispatch`: a handler registered for the sender's type is called
      once, with the posted sender, and no fallback happens. */
  lemma DispatchTest(test: Handler, tx: nat)
    ensures var m := Register(map[], UserType(SenderType), test);
      Dispatched(m, Plain(SenderType, tx)) == [Plain(SenderType, tx)] &&
      Delivered(m, Plain(SenderType, tx)) == {Invocation(test, Plain(SenderType, tx))}
  {
    var m := Register(map[], UserType(SenderType), test);
    var v := Plain(SenderType, tx);
    FallbackIffUnrouted(m, v);
    CallsOfOne(test, v);
  }

  /** Handler A on strings and B on 32-bit integers: a string reaches A only,
      an integer B only, and a float, with no handler and no `DeadEvent`
      handler, reaches nobody. */
  lemma RoutingByExactType(a: Handler, b: Handler, hi: nat, n: nat, x: nat)
    ensures var m := Register(Register(map[], UserType(StringType), a), UserType(I32Type), b);
      && Delivered(m, Plain(StringType, hi)) == {Invocation(a, Plain(StringType, hi))}
      && Delivered(m, Plain(I32Type, n)) == {Invocation(b, Plain(I32Type, n))}
      && Delivered(m, Plain(F64Type, x)) == {}
  {
    var m1 := Register(map[], UserType(StringType), a);
    var m := Register(m1, UserType(I32Type), b);
    assert m[UserType(StringType)] == map[Identity(a) := a];
    FallbackIffUnrouted(m, Plain(StringType, hi));
    CallsOfOne(a, Plain(StringType, hi));
    FallbackIffUnrouted(m, Plain(I32Type, n));
    CallsOfOne(b, Plain(I32Type, n));
    FallbackOneLevel(m, Plain(F64Type, x));
  }

  /** A and B on strings, then A unregistered: a string reaches B only. */
  lemma UnregisterOneOfTwo(a: Handler, b: Handler, s: nat)
    requires !SameHandler(a, b)
    ensures var m := Unregister(Register(Register(map[], UserType(StringType), a), UserType(StringType), b),
                                UserType(StringType), a);
      Delivered(m, Plain(StringType, s)) == {Invocation(b, Plain(StringType, s))}
  {
    var t := UserType(StringType);
    var m := Unregister(Register(Register(map[], t, a), t, b), t, a);
    assert m[t] == map[Identity(b) := b];
    FallbackIffUnrouted(m, Plain(StringType, s));
    CallsOfOne(b, Plain(StringType, s));
  }

  /** The registrations of `eventbus_works`: `my_handler` twice and
      `my_handler_2` on `String`, `my_other_handler` on `&str`, a closure on
      `i32` and `dead_event_handler` on `DeadEvent`; then `my_other_handler`
      unregistered and every `String` handler dropped. */
  function WorksState(mine: Handler, mine2: Handler, other: Handler, closure: Handler, dead: Handler): Handlers
  {
    var m0 := Register(Register(Register(map[], UserType(StringType), mine), UserType(StringType), mine),
                       UserType(StringType), mine2);
    var m1 := Register(Register(Register(m0, UserType(StrType), other), UserType(I32Type), closure),
                       DeadEventType, dead);
    UnregisterAll(Unregister(m1, UserType(StrType), other), UserType(StringType))
  }

  /** After those steps `String` has no entry, `&str` an empty one, and `i32`
      and `DeadEvent` one handler each. */
  lemma {:induction false} WorksStateShape(mine: Handler, mine2: Handler, other: Handler, closure: Handler, dead: Handler)
    ensures WorksState(mine, mine2, other, closure, dead)
         == map[UserType(StrType) := map[],
                UserType(I32Type) := map[Identity(closure) := closure],
                DeadEventType := map[Identity(dead) := dead]]
  {
    var m0 := Register(Register(Register(map[], UserType(StringType), mine), UserType(StringType), mine),
                       UserType(StringType), mine2);
    StringsOnly(mine, mine2);
    var a := Register(m0, UserType(StrType), other);
    NewEntry(m0, UserType(StrType), other);
    var b := Register(a, UserType(I32Type), closure);
    NewEntry(a, UserType(I32Type), closure);
    var m1 := Register(b, DeadEventType, dead);
    NewEntry(b, DeadEventType, dead);
    var u := Unregister(m1, UserType(StrType), other);
    LastRemoved(m1, UserType(StrType), other);
    assert u - {UserType(StringType)} == map[UserType(StrType) := map[],
                                            UserType(I32Type) := map[Identity(closure) := closure],
                                            DeadEventType := map[Identity(dead) := dead]];
    DropOnly(u, UserType(StringType), map[UserType(StrType) := map[],
                                          UserType(I32Type) := map[Identity(closure) := closure],
                                          DeadEventType := map[Identity(dead) := dead]]);
  }

  /** The three `String` registrations create that one entry only. */
  lemma StringsOnly(mine: Handler, mine2: Handler)
    ensures Register(Register(Register(map[], UserType(StringType), mine), UserType(StringType), mine),
                     UserType(StringType), mine2).Keys == {UserType(StringType)}
  {
    var s1 := Register(map[], UserType(StringType), mine);
    var s2 := Register(s1, UserType(StringType), mine);
    assert s1.Keys == {UserType(StringType)};
    assert s2.Keys == {UserType(StringType)};
  }

  /** The first `register` for a type stores a set holding just that handler. */
  lemma NewEntry(m: Handlers, t: TypeTag, h: Handler)
    requires Valid(m) && t !in m
    ensures Register(m, t, h) == m[t := map[Identity(h) := h]]
  {
  }

  /** Unregistering the only handler of a type leaves its entry, empty. */
  lemma LastRemoved(m: Handlers, t: TypeTag, h: Handler)
    requires Valid(m) && t in m && m[t] == map[Identity(h) := h]
    ensures Unregister(m, t, h) == m[t := map[]]
  {
  }

  /** Dropping an entry leaves exactly the other entries. */
  lemma DropOnly(m: Handlers, t: TypeTag, rest: Handlers)
    requires Valid(m) && m - {t} == rest
    ensures UnregisterAll(m, t) == rest
  {
  }

  /** `eventbus_works`: posting a `String` (no entry) and a `&str` (an empty
      entry) both fall back to `dead_event_handler`, whose downcast to `u64`
      finds nothing; an `i32` reaches the closure; a `u64` falls back and its
      downcast to `u64` succeeds. */
  lemma {:induction false} WorksTest(mine: Handler, mine2: Handler, other: Handler, closure: Handler, dead: Handler,
                                     hello: nat, n: nat, big: nat)
    ensures var m := WorksState(mine, mine2, other, closure, dead);
      && Delivered(m, Plain(StringType, hello)) == {Invocation(dead, Wrap(Plain(StringType, hello)))}
      && Delivered(m, Plain(StrType, hello)) == {Invocation(dead, Wrap(Plain(StrType, hello)))}
      && Delivered(m, Plain(I32Type, n)) == {Invocation(closure, Plain(I32Type, n))}
      && Delivered(m, Plain(U64Type, big)) == {Invocation(dead, Wrap(Plain(U64Type, big)))}
      && Downcast(Wrap(Plain(StringType, hello)).event, UserType(U64Type)) == None
      && Downcast(Wrap(Plain(U64Type, big)).event, UserType(U64Type)) == Some(Plain(U64Type, big))
  {
    var m := WorksState(mine, mine2, other, closure, dead);
    WorksStateShape(mine, mine2, other, closure, dead);
    FallbackToDead(m, dead, Plain(StringType, hello));
    FallbackToDead(m, dead, Plain(StrType, hello));
    FallbackToDead(m, dead, Plain(U64Type, big));
    FallbackIffUnrouted(m, Plain(I32Type, n));
    CallsOfOne(closure, Plain(I32Type, n));
  }

  /** An unrouted value reaches exactly the one `DeadEvent` handler. */
  lemma FallbackToDead(m: Handlers, dead: Handler, v: Value)
    requires Valid(m)
    requires Count(m, TypeOf(v)) == 0
    requires DeadEventType in m && m[DeadEventType] == map[Identity(dead) := dead]
    ensures Delivered(m, v) == {Invocation(dead, Wrap(v))}
  {
    FallbackIffUnrouted(m, v);
    CallsOfOne(dead, Wrap(v));
  }

  /** On a fresh bus, a handler registered twice for a type runs exactly once
      when a value of that type is posted, and no fallback happens. */
  method RegisterTwicePostOnce(h: Handler, v: Value) returns (dispatched: seq<Value>, log: seq<Invocation>)
    ensures dispatched == [v]
    ensures log == [Invocation(h, v)]
  {
    var bus := new Bus.EventBus();
    bus.Register(TypeOf(v), h);
    bus.Register(TypeOf(v), h);
    dispatched, log := bus.Post(v);
    assert bus.handlers == map[TypeOf(v) := map[Identity(h) := h]];
    FallbackIffUnrouted(bus.handlers, v);
    CallsOfOne(h, v);
    Bus.DistinctLength(log);
    assert log[0] in Bus.Elements(log);
  }
}
