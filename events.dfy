/** Values that travel through the bus, their runtime type identities, and the
    `DeadEvent` wrapper that carries an unrouted value to the fallback audience. */
module Events {

  datatype Option<+T> = None | Some(value: T)

  /** The runtime type identity used as the routing key: one per user type, and
      one for the library's own `DeadEvent` type. */
  datatype TypeTag = UserType(id: nat) | DeadEventType

  /** A posted value. `Plain(ty, bits)` is a value of user type `ty` with opaque
      contents; `Dead(e)` is a `DeadEvent`. */
  datatype Value = Plain(ty: nat, bits: nat) | Dead(event: DeadEvent)

  /** `DeadEvent(Box<dyn Any>)`: the boxed value keeps its own runtime type. */
  datatype DeadEvent = DeadEvent(boxed: Value)

  /** The exact runtime type of a value; dispatch matches on it and on nothing else. */
  function TypeOf(v: Value): TypeTag
  {
    match v
    case Plain(ty, _) => UserType(ty)
    case Dead(_) => DeadEventType
  }

  /** How many `DeadEvent` layers surround a plain value. */
  function Depth(v: Value): nat
  {
    match v
    case Plain(_, _) => 0
    case Dead(e) => 1 + Depth(e.boxed)
  }

  /** What `post` builds when nobody handled `v`: a `DeadEvent` boxing it. */
  function Wrap(v: Value): (w: Value)
    ensures TypeOf(w) == DeadEventType
    ensures Depth(w) == Depth(v) + 1 && w != v
  {
    Dead(DeadEvent(v))
  }

  /** `downcast_ref::<U>()` on the boxed value: the value itself when its
      runtime type is exactly `u`, nothing otherwise. */
  function Downcast(e: DeadEvent, u: TypeTag): Option<Value>
  {
    if TypeOf(e.boxed) == u then Some(e.boxed) else None
  }

  /** A handler for `DeadEvent` recovers the posted value by downcasting to the
      type it was posted as, and gets "no match" for every other type. */
  lemma DowncastRecoversPosted(v: Value, u: TypeTag)
    ensures Wrap(v).Dead?
    ensures Downcast(Wrap(v).event, TypeOf(v)) == Some(v)
    ensures u != TypeOf(v) ==> Downcast(Wrap(v).event, u) == None
  {
  }
}
