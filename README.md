# eventbus in Dafny

A model of the `EventBus` of `src/lib.rs`. It is an in-process, synchronous,
type-routed publish/subscribe registry. Handlers are registered against the
exact runtime type of the values they observe. `post` hands a value to every
handler of that type. When the first dispatch reaches no handler, the value is
wrapped in a `DeadEvent` and dispatched once more, to the handlers of
`DeadEvent`.

Files and modules:

- `events.dfy`, module `Events`: runtime type identities (`TypeTag`), posted
  values, the `DeadEvent` wrapper, and its fallible downcast.
- `handler_sets.dfy`, module `HandlerSets`: handler identity and
  `Handlers<T>`. A handler is its code (the vtable of the boxed `Fn(&T)`) plus
  its captured state. Equality and hashing read only the code. A set is stored
  as a map from identity to the handler kept under it. This captures that
  `HashSet::insert` keeps the element already present.
- `registry.dfy`, module `Registry`: the `handlers` map as a value. It has one
  function per state change (`Register`, `Unregister`, `UnregisterAll`) and the
  calls that `post` makes (`Dispatched`, `Delivered`). The lemmas about `post`
  live here too.
- `bus.dfy`, module `Bus`: the class `EventBus` with its `handlers` map field.
  `Register`, `Unregister` and `UnregisterAll` change the field in place.
  `Dispatch` is a loop over the handler set, visiting it in an unspecified
  order. `Dispatch` and `Post` only read the bus. A handler call is recorded as
  an `Invocation` in the log they return.
- `scenarios.dfy`, module `Scenarios`: the unit tests of `src/lib.rs` and the
  routing examples, stated as lemmas and one client method.

The model keeps these behaviours of the code, which a cleaner design might change:

- `unregister` leaves an empty set in the map. An empty set and an absent
  entry both make `dispatch` return 0 (`Registry.Count`).
- Handler identity is the vtable alone. The model does not replace it with
  subscription tokens.
- When an equal handler is already registered, `register` keeps the first one.
  The later closure, whatever state it captured, is dropped.

## Model

| member | source | states |
|---|---|---|
| `Events.Wrap` | src/lib.rs:83 | the value `post` builds on fallback has the `DeadEvent` type and one more wrapper layer than the posted value, so it differs from it |
| `Events.DowncastRecoversPosted` | src/lib.rs:137-142 | downcasting a `DeadEvent` to the posted value's type yields that value; any other type yields nothing |
| `HandlerSets.IdentityIsConsistent` | src/lib.rs:35-47 | handler equality is an equivalence, equal handlers hash alike, and two closures with the same code are equal whatever state they capture |
| `HandlerSets.Insert` | src/lib.rs:57-64 | membership after insert is old membership or equal to `h`; an already present equal handler leaves the set, and the handler stored in it, unchanged; otherwise the size grows by one |
| `HandlerSets.Remove` | src/lib.rs:72 | membership after remove is old membership minus handlers equal to `h`; an absent handler leaves the set unchanged; otherwise the size shrinks by one |
| `HandlerSets.CallsCount` | src/lib.rs:90-93 | one pass over a set makes as many distinct calls as the set's `len()` |
| `HandlerSets.CallsMembership` | src/lib.rs:90-92 | a pass calls exactly the stored handlers, each with the dispatched argument |
| `Registry.Lookup` | src/lib.rs:89 | a type with an entry reads as its stored set; a type without one reads as an empty set |
| `Registry.Count` | src/lib.rs:93-95 | what `dispatch` returns is zero exactly when the type's entry is absent or empty |
| `Registry.Register` | src/lib.rs:56-68 | the type's set afterwards is the old set (empty if absent) after `HandlerSets.Insert` of `h`, so it holds the old members plus `h` and keeps every stored handler; a first registration creates a set of exactly `h`; an equal handler already present leaves the map unchanged; no other type's entry changes |
| `Registry.Unregister` | src/lib.rs:70-74 | the type's set, when present, is `HandlerSets.Remove` of `h` from the old one: it loses the handler equal to `h` and keeps every other stored handler; without an entry, or without an equal handler, nothing changes; the entry is never created or dropped; no other type's entry changes |
| `Registry.UnregisterAll` | src/lib.rs:76-78 | the type has no entry afterwards and a dispatch for it returns 0; every other type's entry is unchanged |
| `Registry.NoHandlersNoCalls` | src/lib.rs:89-96 | a dispatch over an absent or empty set calls nobody |
| `Registry.FallbackIffUnrouted` | src/lib.rs:81-86 | `post` dispatches twice iff the first dispatch returned 0; it then makes only the `DeadEvent` calls, otherwise only the first calls; an absent and an empty entry give the same calls |
| `Registry.FallbackOneLevel` | src/lib.rs:81-86 | `post` dispatches once or twice, the posted value first; every call receives the value or its single `DeadEvent` wrapper, never a doubly wrapped one; with no `DeadEvent` handler an unrouted value reaches nobody |
| `Registry.FallbackCarriesPosted` | src/lib.rs:83-84 | a call that `post` makes with a `DeadEvent` can downcast it to the posted value, and to nothing under another type |
| `Registry.RegisterTwice` | src/lib.rs:56-61 | registering the same handler a second time leaves the map as after the first |
| `Registry.RegisteredRunsOnce` | src/lib.rs:56-61 | after registering `h`, posting a value of that type makes exactly one call to a handler equal to `h`: the first registered under its identity |
| `Registry.UnregisteredNeverRuns` | src/lib.rs:70-74 | after unregistering `h`, posting a value of that type never calls a handler equal to `h` with it |
| `Registry.UnregisterAllIsolated` | src/lib.rs:76-78 | dropping one type's entry leaves the calls for every other type unchanged, unless the dropped type is `DeadEvent` and the other type's post falls back |
| `Registry.UnregisterAllSilences` | src/lib.rs:76-78 | after dropping a type's entry, posting a value of it only reaches `DeadEvent` handlers |
| `Bus.EventBus.constructor` | src/lib.rs:52-54 | a new bus has no entry for any type |
| `Bus.EventBus.Register` | src/lib.rs:56-68 | the new map is `Registry.Register` of the old one, and the set invariant is kept |
| `Bus.EventBus.Unregister` | src/lib.rs:70-74 | the new map is `Registry.Unregister` of the old one, and the set invariant is kept |
| `Bus.EventBus.UnregisterAll` | src/lib.rs:76-78 | the new map is `Registry.UnregisterAll` of the old one, and the set invariant is kept |
| `Bus.EventBus.Dispatch` | src/lib.rs:88-97 | returns the set's size, or 0 without a set; the log calls every handler of the argument's exact type, each exactly once |
| `Bus.EventBus.Post` | src/lib.rs:81-86 | dispatches the value, then its `DeadEvent` only when the first count was 0; the log holds exactly the calls of `Registry.Delivered`, none twice |
| `Scenarios.DispatchTest` | src/lib.rs:106-121 | a handler registered for the sender type is called once with the posted sender, with no fallback |
| `Scenarios.RoutingByExactType` | src/lib.rs:88-97 | with A on strings and B on integers, a string reaches only A, an integer only B, and an unhandled type nobody |
| `Scenarios.UnregisterOneOfTwo` | src/lib.rs:70-74 | with A and B on one type, unregistering A leaves only B reachable |
| `Scenarios.LastRemoved` | src/lib.rs:71-73 | unregistering the only handler of a type leaves that type's entry in place, empty |
| `Scenarios.NewEntry` | src/lib.rs:62-66 | the first registration for a type stores a set holding exactly that handler |
| `Scenarios.WorksStateShape` | src/lib.rs:145-154 | after the registrations of `eventbus_works`, `String` has no entry, `&str` an empty one, and `i32` and `DeadEvent` one handler each |
| `Scenarios.WorksTest` | src/lib.rs:155-159 | the four posts of `eventbus_works`: `String`, `&str` and `u64` reach only the `DeadEvent` handler, `i32` only the closure, and the downcasts to `u64` fail and succeed as the test prints |
| `Scenarios.FallbackToDead` | src/lib.rs:82-84 | an unrouted value reaches exactly the single `DeadEvent` handler, with the value wrapped |
| `Scenarios.RegisterTwicePostOnce` | src/lib.rs:146-147 | on a fresh bus, a handler registered twice runs exactly once when its type is posted |

## Left out

- The `TraitObject` transmute and `AnyMap` type erasure are not modelled. A handler's vtable is given as its `code`. Types are `TypeTag` values.
- Whether the compiler gives two closures the same vtable is not modelled. The model assumes nothing about how codes are assigned.
- Hash values are not modelled beyond their agreement with equality. Collisions do not matter, because `HashSet` decides membership by equality.
- Handler bodies are not executed. Their side effects (printing, channel sends) are not modelled either. A call is recorded as an `Invocation`.
- A handler that panics is not modelled. In the code this aborts the rest of the dispatch.
- A handler that calls back into the bus is not modelled. `post` takes `&self`, so a handler holding a shared handle to the bus (an `Rc` it captured) can call `post` again during a dispatch. Borrow rules exclude only `register`, `unregister` and `unregister_all`, which take `&mut self`; reached through a `RefCell`, they panic at run time.
- `Bus.EventBus.Post`: its log records only the calls of that one post. A post made from inside a handler is a handler side effect and is not in the log.
- `Bus.EventBus.Post` returns the dispatched values and a call log. The code returns nothing; these are the model's record of what `post` does.
- `usize` width of `len()` is not modelled (`nat`). No realistic set reaches 2^64 handlers.
- `examples/example.rs` is a demo program that only registers printing handlers and posts values. It is not part of this model.
