/** Handler identity and the per-type handler collection `Handlers<T>`, a
    `HashSet<HandlerPtr<T>>` whose hashing and equality read only the handler's
    vtable pointer. */
module HandlerSets {
  import opened Events

  /** The vtable pointer of a boxed `Fn(&T)`: one per compiled closure shape. */
  type CodeId = nat

  /** A boxed handler: its code (the trait object's vtable) and its captured
      state (the trait object's data pointer). */
  datatype Handler = Handler(code: CodeId, env: nat)

  /** The identity `HandlerPtr` compares and hashes: the vtable alone. */
  function Identity(h: Handler): CodeId
  {
    h.code
  }

  /** `PartialEq for HandlerPtr`. */
  predicate SameHandler(a: Handler, b: Handler)
  {
    Identity(a) == Identity(b)
  }

  /** `Hash for HandlerPtr`: writes the vtable address as a `u64`. */
  function Hash(h: Handler): nat
  {
    h.code
  }

  /** Equal handlers hash alike, and equality is an equivalence (`Eq`); two
      closures that share code but capture different state are the same handler. */
  lemma IdentityIsConsistent(a: Handler, b: Handler, c: Handler)
    ensures SameHandler(a, a)
    ensures SameHandler(a, b) ==> SameHandler(b, a) && Hash(a) == Hash(b)
    ensures SameHandler(a, b) && SameHandler(b, c) ==> SameHandler(a, c)
    ensures a.code == b.code ==> SameHandler(a, b)
  {
  }

  /** A `HashSet<HandlerPtr<T>>`: at most one stored handler per identity,
      kept under its identity. */
  type HandlerSet = map<CodeId, Handler>

  ghost predicate WellKeyed(s: HandlerSet)
  {
    forall k | k in s :: Identity(s[k]) == k
  }

  /** Set membership under `HandlerPtr`'s equality. */
  predicate Contains(s: HandlerSet, h: Handler)
  {
    Identity(h) in s
  }

  /** `HashSet::insert`: adds `h` unless an equal handler is already present,
      in which case the set, and the handler stored in it, stay as they were. */
  function Insert(s: HandlerSet, h: Handler): (r: HandlerSet)
    requires WellKeyed(s)
    ensures WellKeyed(r)
    ensures forall g :: Contains(r, g) <==> Contains(s, g) || SameHandler(g, h)
    ensures Contains(s, h) ==> r == s
    ensures !Contains(s, h) ==> Identity(h) in r && r[Identity(h)] == h && |r| == |s| + 1
    ensures forall k | k in s :: k in r && r[k] == s[k]
  {
    if Identity(h) in s then s else s[Identity(h) := h]
  }

  /** `HashSet::remove` with a freshly built `HandlerPtr`: drops the handler
      equal to `h`, if any; every other handler stays as it was. */
  function Remove(s: HandlerSet, h: Handler): (r: HandlerSet)
    requires WellKeyed(s)
    ensures WellKeyed(r)
    ensures forall g :: Contains(r, g) <==> Contains(s, g) && !SameHandler(g, h)
    ensures !Contains(s, h) ==> r == s
    ensures Contains(s, h) ==> |r| == |s| - 1
    ensures forall k | k in r :: k in s && r[k] == s[k]
  {
    s - {Identity(h)}
  }

  /** One handler invoked with one argument. */
  datatype Invocation = Invocation(handler: Handler, arg: Value)

  /** The invocations one pass over `s` makes with `arg`: each stored handler
      called with `arg`. */
  function Calls(s: HandlerSet, arg: Value): set<Invocation>
  {
    set k | k in s :: Invocation(s[k], arg)
  }

  /** A pass makes exactly one call per stored handler: distinct identities give
      distinct invocations, so there are as many as the set's `len()`. */
  lemma {:induction false} CallsCount(s: HandlerSet, arg: Value)
    requires WellKeyed(s)
    ensures |Calls(s, arg)| == |s|
    decreases |s|
  {
    if s != map[] {
      var k :| k in s;
      var rest := s - {k};
      CallsCount(rest, arg);
      forall c
        ensures c in Calls(s, arg) <==> c in Calls(rest, arg) + {Invocation(s[k], arg)}
      {
        if c in Calls(s, arg) {
          var j :| j in s && c == Invocation(s[j], arg);
          if j != k { assert j in rest; }
        }
      }
      assert Calls(s, arg) == Calls(rest, arg) + {Invocation(s[k], arg)};
      assert Invocation(s[k], arg) !in Calls(rest, arg);
    }
  }

  /** Membership in a pass: a call is made iff its argument is `arg` and its
      handler is the one stored under the handler's identity. */
  lemma CallsMembership(s: HandlerSet, arg: Value, c: Invocation)
    requires WellKeyed(s)
    ensures c in Calls(s, arg) <==> c.arg == arg && Contains(s, c.handler) && s[Identity(c.handler)] == c.handler
  {
    if c.arg == arg && Contains(s, c.handler) && s[Identity(c.handler)] == c.handler {
      assert c == Invocation(s[Identity(c.handler)], arg);
    }
  }
}
