/** `EventBus`: one `handlers` map, changed in place by `register`,
    `unregister` and `unregister_all`, and read by `post` and `dispatch`.
    Handlers are not executed: each call is recorded as an `Invocation` in the
    log that `dispatch` and `post` return. */
module Bus {
  import opened Events
  import opened HandlerSets
  import Registry

  /** A sequence that holds no element twice. */
  predicate Distinct<T(==)>(s: seq<T>)
  {
    forall i, j | 0 <= i < j < |s| :: s[i] != s[j]
  }

  /** The elements of a log. */
  function Elements<T>(s: seq<T>): set<T>
  {
    set x | x in s
  }

  /** A duplicate-free log holds as many entries as it has elements. */
  lemma {:induction false} DistinctLength<T>(s: seq<T>)
    requires Distinct(s)
    ensures |Elements(s)| == |s|
  {
    if s != [] {
      var rest := s[1..];
      assert Distinct(rest);
      DistinctLength(rest);
      assert Elements(s) == Elements(rest) + {s[0]};
      assert s[0] !in Elements(rest);
    }
  }

  class EventBus {
    var handlers: Registry.Handlers

    /** Every handler set holds each handler under its own identity. */
    ghost predicate Valid()
      reads this
    {
      Registry.Valid(handlers)
    }

    /** `EventBus::new`: no type has a handler set. */
    constructor ()
      ensures Valid() && handlers == map[]
    {
      handlers := map[];
    }

    /** `register::<T>(h)`: through the map's entry, insert into the occupied
        set or store a new set holding `h`. */
    method Register(t: TypeTag, h: Handler)
      requires Valid()
      modifies this
      ensures Valid()
      ensures handlers == Registry.Register(old(handlers), t, h)
    {
      if t in handlers {
        handlers := handlers[t := Insert(handlers[t], h)];
      } else {
        var created: HandlerSet := map[];
        created := Insert(created, h);
        handlers := handlers[t := created];
      }
    }

    /** `unregister::<T>(h)`: remove the handler equal to `h` when `t` has a set. */
    method Unregister(t: TypeTag, h: Handler)
      requires Valid()
      modifies this
      ensures Valid()
      ensures handlers == Registry.Unregister(old(handlers), t, h)
    {
      if t in handlers {
        handlers := handlers[t := Remove(handlers[t], h)];
      }
    }

    /** `unregister_all::<T>()`: drop `t`'s entry from the map. */
    method UnregisterAll(t: TypeTag)
      requires Valid()
      modifies this
      ensures Valid()
      ensures handlers == Registry.UnregisterAll(old(handlers), t)
    {
      handlers := handlers - {t};
    }

    /** `dispatch(arg)`: call every handler of `arg`'s exact type, each once,
        in no particular order, and return the set's size, or 0 without a set. */
    method Dispatch(arg: Value) returns (n: nat, log: seq<Invocation>)
      requires Valid()
      ensures n == Registry.Count(handlers, TypeOf(arg))
      ensures Elements(log) == Registry.CallsFor(handlers, arg)
      ensures Distinct(log) && |log| == n
    {
      var t := TypeOf(arg);
      if t in handlers {
        var s := handlers[t];
        assert WellKeyed(s);
        var todo := s.Keys;
        ghost var done: set<CodeId> := {};
        log := [];
        while todo != {}
          invariant todo !! done && todo + done == s.Keys
          invariant Elements(log) == Visited(s, done, arg)
          invariant forall i | 0 <= i < |log| :: Identity(log[i].handler) in done
          invariant Distinct(log) && |log| == |done|
          decreases todo
        {
          var k :| k in todo;
          var call := Invocation(s[k], arg);
          assert call !in log;
          VisitOneMore(s, done, k, arg);
          log := log + [call];
          todo := todo - {k};
          done := done + {k};
        }
        VisitedAll(s, arg);
        n := |s|;
      } else {
        n, log := 0, [];
      }
    }

    /** `post(arg)`: dispatch `arg`; only when that returned 0, wrap `arg` in a
        `DeadEvent` and dispatch that once. Returns the arguments dispatched and
        the calls made. */
    method Post(arg: Value) returns (dispatched: seq<Value>, log: seq<Invocation>)
      requires Valid()
      ensures dispatched == Registry.Dispatched(handlers, arg)
      ensures Elements(log) == Registry.Delivered(handlers, arg)
      ensures Distinct(log)
    {
      var n;
      n, log := Dispatch(arg);
      dispatched := [arg];
      if n == 0 {
        var deadEvent := Wrap(arg);
        var _, fallback := Dispatch(deadEvent);
        dispatched := dispatched + [deadEvent];
        log := log + fallback;
      }
    }
  }

  /** The calls made so far by a pass over `s` that has visited the
      identities in `done`. */
  function Visited(s: HandlerSet, done: set<CodeId>, arg: Value): set<Invocation>
  {
    set k | k in done && k in s :: Invocation(s[k], arg)
  }

  /** Visiting one more identity adds that handler's call. */
  lemma VisitOneMore(s: HandlerSet, done: set<CodeId>, k: CodeId, arg: Value)
    requires k in s
    ensures Visited(s, done + {k}, arg) == Visited(s, done, arg) + {Invocation(s[k], arg)}
  {
    forall c | c in Visited(s, done + {k}, arg)
      ensures c in Visited(s, done, arg) + {Invocation(s[k], arg)}
    {
      var j :| j in done + {k} && j in s && c == Invocation(s[j], arg);
      if j != k {
        assert j in done;
      }
    }
  }

  /** A pass that has visited every identity has made all of `Calls`. */
  lemma VisitedAll(s: HandlerSet, arg: Value)
    ensures Visited(s, s.Keys, arg) == Calls(s, arg)
  {
  }
}
