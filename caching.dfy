/** The memoising Cache of caching.py: a table keyed by the function and
    its arguments; retrieve returns the stored entry or calls the function,
    stores what it returns and returns that. */
module Caching {
  import opened PyValues

  /** `(func, pickled_arglist)`. The pickled argument list is abstracted to
      the argument values themselves: two calls share a key exactly when
      they pass the same function and equal arguments. */
  datatype Key<F, A> = Key(func: F, args: A)

  /** What `storage.get(key, NONE_OBJECT)` finds. Absent plays the role of
      the NONE_OBJECT sentinel: no stored value other than NONE_OBJECT itself
      (None included) is mistaken for it. A function that returns
      Cache.NONE_OBJECT would store the sentinel and miss on every later
      lookup; such functions are not modelled. */
  datatype Lookup<V> = Stored(value: V) | Absent

  function Find<F(==), A(==), V>(storage: map<Key<F, A>, V>, key: Key<F, A>): (l: Lookup<V>)
    ensures l.Stored? <==> key in storage
    ensures l.Stored? ==> l.value == storage[key]
  {
    if key in storage then Stored(storage[key]) else Absent
  }

  /** One `retrieve(func, args)` on a table: the value it returns and the
      table it leaves. */
  function Retrieval<F(==), A(==), V>(storage: map<Key<F, A>, V>, func: F, args: A, call: A -> V)
    : (r: (V, map<Key<F, A>, V>))
    ensures Key(func, args) in r.1 && r.1[Key(func, args)] == r.0
    ensures Key(func, args) in storage ==> r == (storage[Key(func, args)], storage)
    ensures Key(func, args) !in storage ==> r.0 == call(args) && r.1 == storage[Key(func, args) := r.0]
  {
    match Find(storage, Key(func, args))
    case Stored(v) => (v, storage)
    case Absent => var v := call(args); (v, storage[Key(func, args) := v])
  }

  /** A table whose every entry is what its function returns for its arguments. */
  ghost predicate Coherent<F, A, V>(storage: map<Key<F, A>, V>, oracle: F -> A -> V) {
    forall k :: k in storage ==> storage[k] == oracle(k.func)(k.args)
  }

  /** The table only grows: the entry for the key is added if it was absent,
      and every other entry stays as it was. */
  lemma RetrievalOnlyGrows<F, A, V>(storage: map<Key<F, A>, V>, func: F, args: A, call: A -> V)
    ensures var after := Retrieval(storage, func, args, call).1;
            && after.Keys == storage.Keys + {Key(func, args)}
            && forall k :: k in storage ==> after[k] == storage[k]
  {
  }

  /** Memoisation is transparent: on a table that holds only true results,
      retrieve returns what calling the function would, and the table
      still holds only true results. */
  lemma RetrievalIsTransparent<F, A, V>(storage: map<Key<F, A>, V>, oracle: F -> A -> V, func: F, args: A)
    requires Coherent(storage, oracle)
    ensures var r := Retrieval(storage, func, args, oracle(func));
            r.0 == oracle(func)(args) && Coherent(r.1, oracle)
  {
    var r := Retrieval(storage, func, args, oracle(func));
    forall k | k in r.1 ensures r.1[k] == oracle(k.func)(k.args) {
      if k != Key(func, args) {
        assert k in storage;
      }
    }
  }

  /** A second retrieve with the same function and arguments is a hit: it
      returns the first one's value and leaves the table alone, whatever
      the function would now return. */
  lemma RetrievalRepeats<F, A, V>(storage: map<Key<F, A>, V>, func: F, args: A, call: A -> V, later: A -> V)
    ensures var first := Retrieval(storage, func, args, call);
            Retrieval(first.1, func, args, later) == first
  {
  }

  /** The key holds the function: an entry stored for one function is no
      hit for another function called with the same arguments. */
  lemma KeysSeparateFunctions<F, A, V>(storage: map<Key<F, A>, V>, f: F, g: F, args: A, cf: A -> V, cg: A -> V)
    requires f != g && Key(g, args) !in storage
    ensures var first := Retrieval(storage, f, args, cf);
            Retrieval(first.1, g, args, cg).0 == cg(args)
  {
  }

  /** A stored None is a hit: the sentinel, not None, marks a missing entry. */
  lemma StoredNoneIsHit<F, A>(storage: map<Key<F, A>, PyVal>, func: F, args: A, call: A -> PyVal)
    requires Key(func, args) in storage && storage[Key(func, args)] == None
    ensures Retrieval(storage, func, args, call) == (None, storage)
  {
  }

  class Cache<F(==), A(==), V> {
    /** `storage`, keyed by (func, pickled_args). */
    var storage: map<Key<F, A>, V>
    /** The keys whose function was actually called, in order. */
    ghost var invocations: seq<Key<F, A>>

    constructor ()
      ensures storage == map[] && invocations == []
    {
      storage := map[];
      invocations := [];
    }

    /** `self.storage.get(key, self.NONE_OBJECT)` */
    method Get(key: Key<F, A>) returns (found: Lookup<V>)
      ensures found.Stored? <==> key in storage
      ensures found.Stored? ==> found.value == storage[key]
    {
      found := Find(storage, key);
    }

    /** `self.storage[key] = value` */
    method Store(key: Key<F, A>, value: V)
      modifies this
      ensures storage == old(storage)[key := value]
      ensures invocations == old(invocations)
    {
      storage := storage[key := value];
    }

    /** `retrieve(func, args, kwargs)`: the stored entry on a hit; on a miss
        one call of the function, whose result is stored and returned. The
        function is a value here and cannot call back into the cache; a
        recursive function that goes through its own wrapper is CachedFact's
        case. */
    method Retrieve(func: F, args: A, call: A -> V) returns (value: V)
      modifies this
      ensures (value, storage) == Retrieval(old(storage), func, args, call)
      ensures Key(func, args) in old(storage) ==> invocations == old(invocations)
      ensures Key(func, args) !in old(storage) ==> invocations == old(invocations) + [Key(func, args)]
    {
      var key := Key(func, args);
      var found := Get(key);
      match found
      case Stored(v) =>
        value := v;
      case Absent =>
        value := call(args);
        invocations := invocations + [key];
        Store(key, value);
    }

    /** Calling the wrapper that `keep(func)` returns: it hands the call to
        retrieve. */
    method Kept(func: F, call: A -> V, args: A) returns (value: V)
      modifies this
      ensures (value, storage) == Retrieval(old(storage), func, args, call)
      ensures Key(func, args) in old(storage) ==> invocations == old(invocations)
      ensures Key(func, args) !in old(storage) ==> invocations == old(invocations) + [Key(func, args)]
    {
      value := Retrieve(func, args, call);
    }
  }

  // ---------------------------------------------------------------------
  // A recursive function decorated with keep: the factorial of the tests

  const Fact: string := "fact"

  function Factorial(n: int): int
    decreases n
  {
    if n <= 1 then 1 else n * Factorial(n - 1)
  }

  /** Every fact entry of the table holds the factorial of its argument. */
  ghost predicate HoldsFactorials(storage: map<Key<string, int>, int>) {
    forall n :: Key(Fact, n) in storage ==> storage[Key(Fact, n)] == Factorial(n)
  }

  /** The calls of the undecorated fact that `fact(n)` makes on a table:
      n, n - 1, ... down to 1, stopping at the first argument already stored. */
  function FactCalls(storage: map<Key<string, int>, int>, n: int): seq<Key<string, int>>
    decreases n
  {
    if n < 1 || Key(Fact, n) in storage then [] else [Key(Fact, n)] + FactCalls(storage, n - 1)
  }

  /** fact(n) calls the undecorated function on n, n - 1, ... in turn, each
      an argument the table lacked, and on at most n arguments. */
  lemma {:induction false} FactCallsShape(storage: map<Key<string, int>, int>, n: int)
    ensures var calls := FactCalls(storage, n);
            && (forall k :: 0 <= k < |calls| ==> calls[k] == Key(Fact, n - k) && calls[k] !in storage)
            && (calls == [] || |calls| <= n)
    decreases n
  {
    if n >= 1 && Key(Fact, n) !in storage {
      FactCallsShape(storage, n - 1);
    }
  }

  lemma FactCallsMiss(storage: map<Key<string, int>, int>, n: int)
    requires n >= 1 && Key(Fact, n) !in storage
    ensures FactCalls(storage, n) == [Key(Fact, n)] + FactCalls(storage, n - 1)
    ensures Key(Fact, n) !in FactCalls(storage, n - 1)
  {
    FactCallsShape(storage, n - 1);
  }

  /** Storing the true factorial keeps a table of true factorials. */
  lemma StoreFactorial(storage: map<Key<string, int>, int>, n: int)
    requires HoldsFactorials(storage)
    ensures HoldsFactorials(storage[Key(Fact, n) := Factorial(n)])
  {
  }

  /** The decorated `fact(n)`: each call goes through the cache, and a miss
      records n in the invocation log before recursing. The test's fact
      stops only at n == 1, so fact(0) or a negative n recurses without end
      (until Python's recursion limit); hence n >= 1. */
  method CachedFact(cache: Cache<string, int, int>, n: int) returns (r: int)
    requires n >= 1
    requires HoldsFactorials(cache.storage)
    modifies cache
    ensures r == Factorial(n)
    ensures HoldsFactorials(cache.storage)
    ensures cache.invocations == old(cache.invocations) + FactCalls(old(cache.storage), n)
    ensures forall k :: k in cache.storage <==> k in old(cache.storage) || k in FactCalls(old(cache.storage), n)
    ensures forall k :: k in old(cache.storage) ==> cache.storage[k] == old(cache.storage)[k]
    decreases n
  {
    ghost var before := cache.storage;
    var key := Key(Fact, n);
    var found := cache.Get(key);
    match found
    case Stored(v) =>
      r := v;
    case Absent =>
      FactCallsMiss(before, n);
      cache.invocations := cache.invocations + [key];
      if n == 1 {
        r := 1;
      } else {
        var p := CachedFact(cache, n - 1);
        r := n * p;
      }
      StoreFactorial(cache.storage, n);
      cache.Store(key, r);
  }

  /** `fact(5)` then `fact(6)` on a fresh cache: 720, with the undecorated
      function called for 5, 4, 3, 2, 1 and then only for 6. */
  method FactorialScenario() returns (f6: int, ghost log: seq<Key<string, int>>)
    ensures f6 == 720
    ensures log == [Key(Fact, 5), Key(Fact, 4), Key(Fact, 3), Key(Fact, 2), Key(Fact, 1), Key(Fact, 6)]
  {
    var cache := new Cache<string, int, int>();
    var f5 := CachedFact(cache, 5);
    assert FactCalls(map[], 5) == [Key(Fact, 5), Key(Fact, 4), Key(Fact, 3), Key(Fact, 2), Key(Fact, 1)];
    assert Key(Fact, 5) in cache.storage;
    f6 := CachedFact(cache, 6);
    log := cache.invocations;
  }

  function Sum(xs: seq<int>): int
    decreases |xs|
  {
    if xs == [] then 0 else xs[0] + Sum(xs[1..])
  }

  /** `sum_(list(range(10)))` then `sum_([0, 1, 2, 3, 4] + [5, 6, 7, 8, 9])`:
      equal arguments built differently share one entry, so the function
      runs once. */
  method ListArgsScenario() returns (v1: int, v2: int, ghost log: seq<Key<string, seq<int>>>)
    ensures v1 == 45 && v2 == 45
    ensures |log| == 1
  {
    var cache := new Cache<string, seq<int>, int>();
    var range10 := seq(10, i => i);
    var joined := [0, 1, 2, 3, 4] + [5, 6, 7, 8, 9];
    assert range10 == joined == [0, 1, 2, 3, 4, 5, 6, 7, 8, 9];
    v1 := cache.Kept("sum_", Sum, range10);
    v2 := cache.Kept("sum_", Sum, joined);
    log := cache.invocations;
  }
}
