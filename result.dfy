/** The immutable Result type of result.py: an exclusive pair, value or
    error, discriminated by has_value; its fmap-style combinators; and the
    OnlyOne list helper. */
module Results {
  import opened PyValues
  import opened PyBuiltins

  /** A Result's private state, `__payload` and `__has_value`. Nothing
      changes it after construction. */
  datatype Result = Result(payload: PyVal, hasValue: bool) {

    /** The `value` property: the payload of a value Result, else None. */
    function Value(): (v: PyVal)
      ensures v != None ==> hasValue && v == payload
      ensures hasValue ==> v == payload
    {
      if hasValue then payload else None
    }

    /** The `error` property: the payload of an error Result, else None. */
    function Error(): (e: PyVal)
      ensures e != None ==> !hasValue && e == payload
      ensures !hasValue ==> e == payload
    {
      if !hasValue then payload else None
    }
  }

  /** What construction guarantees of every Result: an error Result carries
      a truthy payload (a value Result may carry anything, None included). */
  predicate Valid(r: Result) {
    r.hasValue || Truthy(r.payload)
  }

  const ExclusivityMessage: Bytes := "Set either value or error"

  /** The private constructor `Result(value, error)`. The assertion demands
      that exactly one argument be None; the branch that follows then tests
      the error argument for truthiness, not for None. */
  function Init(value: PyVal, error: PyVal): (o: Outcome<Result>)
    ensures o.Returned? <==> ((value == None) != (error == None))
    ensures o.Raised? ==> o == Raised(AssertionError, ExclusivityMessage)
    ensures o.Returned? ==> Valid(o.value)
    ensures o.Returned? ==> (o.value.hasValue <==> !Truthy(error))
    ensures o.Returned? ==> o.value.payload == (if Truthy(error) then error else value)
  {
    if (value == None) == (error == None) then Raised(AssertionError, ExclusivityMessage)
    else if Truthy(error) then Returned(Result(error, false))
    else Returned(Result(value, true))
  }

  /** `Result.AsValue(payload)` */
  function AsValue(p: PyVal): (o: Outcome<Result>)
    ensures p == None ==> o == Raised(AssertionError, ExclusivityMessage)
    ensures p != None ==> o.Returned? && o.value.hasValue && o.value.Value() == p && o.value.Error() == None
  {
    Init(p, None)
  }

  /** `Result.AsError(payload)`, as written: a payload that is not None but
      falsy (0, '', []) takes the value branch of the constructor, and what
      comes out is a value Result whose value is None. */
  function AsError(p: PyVal): (o: Outcome<Result>)
    ensures p == None ==> o == Raised(AssertionError, ExclusivityMessage)
    ensures Truthy(p) ==> o.Returned? && !o.value.hasValue && o.value.Error() == p && o.value.Value() == None
    ensures p != None && !Truthy(p) ==>
      o.Returned? && o.value.hasValue && o.value.Value() == None && o.value.Error() == None
  {
    Init(None, p)
  }

  /** The constructor as its assertion evidently intends: the error argument
      is tested against None. */
  function InitIntended(value: PyVal, error: PyVal): (o: Outcome<Result>)
    ensures o.Returned? <==> ((value == None) != (error == None))
    ensures o.Raised? ==> o == Raised(AssertionError, ExclusivityMessage)
    ensures o.Returned? ==> (o.value.hasValue <==> error == None)
    ensures o.Returned? ==> o.value.payload == (if error != None then error else value)
    ensures o.Returned? ==> o.value.payload != None
  {
    if (value == None) == (error == None) then Raised(AssertionError, ExclusivityMessage)
    else if error != None then Returned(Result(error, false))
    else Returned(Result(value, true))
  }

  /** `AsError` over the intended constructor: every payload but None gives
      an error Result that carries it. */
  function AsErrorIntended(p: PyVal): (o: Outcome<Result>)
    ensures p == None ==> o == Raised(AssertionError, ExclusivityMessage)
    ensures p != None ==> o.Returned? && !o.value.hasValue && o.value.Error() == p && o.value.Value() == None
  {
    InitIntended(None, p)
  }

  /** The two constructors differ exactly on the falsy payloads: AsError(0)
      is a value Result with value None, where an error carrying 0 was meant. */
  lemma AsErrorFalsyPayload(p: PyVal)
    requires p != None
    ensures AsError(p) == AsErrorIntended(p) <==> Truthy(p)
    ensures AsError(Int(0)) == Returned(Result(None, true))
    ensures AsErrorIntended(Int(0)) == Returned(Result(Int(0), false))
  {
  }

  /** At most one accessor gives something other than None, and on a Valid
      Result the error accessor tells the two variants apart. */
  lemma AccessorsExclusive(r: Result)
    ensures r.Value() == None || r.Error() == None
    ensures Valid(r) ==> (r.Error() != None <==> !r.hasValue)
  {
  }

  /** Valid is exactly the set of Results the factories can build. */
  lemma ValidIsReachable(r: Result)
    ensures Valid(r) <==> exists p :: AsValue(p) == Returned(r) || AsError(p) == Returned(r)
  {
    if Valid(r) {
      if !r.hasValue {
        assert AsError(r.payload) == Returned(r);
      } else if r.payload == None {
        assert AsError(Int(0)) == Returned(r);
      } else {
        assert AsValue(r.payload) == Returned(r);
      }
    }
  }

  // ---------------------------------------------------------------------
  // __repr__

  const ValuePrefix: Bytes := "Result.AsValue("
  const ErrorPrefix: Bytes := "Result.AsError("
  const NotEnoughArguments: Bytes := "not enough arguments " + "for format string"
  const NotAllConverted: Bytes := "not all arguments converted " + "during string formatting"

  /** The factory a repr names: AsValue for a value Result, AsError for an error Result. */
  function Prefix(hasValue: bool): (p: Bytes)
    ensures |p| == 15 && p[9] == (if hasValue then 'V' else 'E')
  {
    if hasValue then ValuePrefix else ErrorPrefix
  }

  /** The rendering the format evidently intends, `'Result.AsValue(%r)' %
      (payload,)`: the factory applied to the payload's repr. */
  function ReprIntended(r: Result): Bytes {
    Prefix(r.hasValue) + PyValues.Repr(r.payload) + ")"
  }

  /** `repr(r)` as written, `'Result.AsValue(%r)' % payload`. The `%`
      operator takes a tuple on its right as the argument list: an empty
      tuple leaves %r without an argument, a 1-tuple gives its element, and
      a longer tuple leaves arguments unconverted. */
  function Repr(r: Result): (o: Outcome<Bytes>)
    ensures o.Raised? <==> r.payload.Tuple? && |r.payload.items| != 1
    ensures o.Raised? ==> o.kind == TypeError
    ensures !r.payload.Tuple? ==> o == Returned(ReprIntended(r))
    ensures r.payload.Tuple? && |r.payload.items| == 1 ==>
      o == Returned(ReprIntended(Result(r.payload.items[0], r.hasValue)))
  {
    match r.payload
    case Tuple(xs) =>
      if |xs| == 0 then Raised(TypeError, NotEnoughArguments)
      else if |xs| == 1 then Returned(Prefix(r.hasValue) + PyValues.Repr(xs[0]) + ")")
      else Raised(TypeError, NotAllConverted)
    case _ => Returned(ReprIntended(r))
  }

  /** Reads back the repr of a Result with a scalar payload. */
  function ReadRepr(t: Bytes): Parse<Result> {
    if |t| >= |ValuePrefix| + 1 && t[|t| - 1] == ')' && t[..|ValuePrefix|] in {ValuePrefix, ErrorPrefix} then
      match ReadAtom(t[|ValuePrefix|..|t| - 1])
      case Parsed(v) => Parsed(Result(v, t[..|ValuePrefix|] == ValuePrefix))
      case Invalid => Invalid
    else Invalid
  }

  /** repr is reconstructible: a Result with a scalar payload has a repr,
      and it reads back as that Result. */
  lemma ReprRoundTrip(r: Result)
    requires IsAtom(r.payload)
    ensures Repr(r).Returned? && ReadRepr(Repr(r).value) == Parsed(r)
  {
    var t := ReprIntended(r);
    var prefix := Prefix(r.hasValue);
    assert t[..15] == prefix;
    assert t[15..|t| - 1] == PyValues.Repr(r.payload);
    AtomReprRoundTrip(r.payload);
    assert ValuePrefix != ErrorPrefix by { assert ValuePrefix[9] != ErrorPrefix[9]; }
  }

  lemma ReprInjective(a: Result, b: Result)
    requires IsAtom(a.payload) && IsAtom(b.payload)
    requires Repr(a) == Repr(b)
    ensures a == b
  {
    ReprRoundTrip(a);
    ReprRoundTrip(b);
  }

  /** Whatever the payload, the intended repr tells a value Result from an
      error Result. */
  lemma ReprIntendedShowsDiscriminator(a: Result, b: Result)
    requires ReprIntended(a) == ReprIntended(b)
    ensures a.hasValue == b.hasValue
  {
    var ta, tb := ReprIntended(a), ReprIntended(b);
    assert ta[9] == Prefix(a.hasValue)[9];
    assert tb[9] == Prefix(b.hasValue)[9];
  }

  /** So does every repr the code as written manages to render. */
  lemma ReprShowsDiscriminator(a: Result, b: Result)
    requires Repr(a).Returned? && Repr(a) == Repr(b)
    ensures a.hasValue == b.hasValue
  {
    var a', b' := a, b;
    if a.payload.Tuple? { a' := Result(a.payload.items[0], a.hasValue); }
    if b.payload.Tuple? { b' := Result(b.payload.items[0], b.hasValue); }
    ReprIntendedShowsDiscriminator(a', b');
  }

  /** The renderings of the unit tests' two Results. The tests expect
      "Result.asValue(1)" and "Result.asError('foo')"; the code renders the
      factory names with a capital letter. */
  lemma ReprExamples()
    ensures AsValue(Int(1)).Returned? && Repr(AsValue(Int(1)).value) == Returned("Result.AsValue(1)")
    ensures AsError(Str("foo")).Returned? && Repr(AsError(Str("foo")).value) == Returned("Result.AsError('foo')")
    ensures Repr(AsValue(Int(1)).value) != Returned("Result.asValue(1)")
  {
    assert Decimal(1) == "1";
    assert StrRepr("foo") == "'foo'";
    assert ReprIntended(Result(Int(1), true)) == ValuePrefix + "1" + ")" == "Result.AsValue(1)";
    assert ReprIntended(Result(Str("foo"), false)) == ErrorPrefix + "'foo'" + ")" == "Result.AsError('foo')";
    assert "Result.AsValue(1)"[7] != "Result.asValue(1)"[7];
  }

  /** A tuple payload as written: (1, 2) makes repr raise, and (1,) renders
      as if the payload were 1; the intended rendering shows both tuples. */
  lemma TupleReprCounterexample()
    ensures AsValue(Tuple([Int(1), Int(2)])) == Returned(Result(Tuple([Int(1), Int(2)]), true))
    ensures Repr(Result(Tuple([Int(1), Int(2)]), true)) == Raised(TypeError, NotAllConverted)
    ensures ReprIntended(Result(Tuple([Int(1), Int(2)]), true)) == "Result.AsValue((1, 2))"
    ensures Repr(Result(Tuple([Int(1)]), true)) == Returned("Result.AsValue(1)")
    ensures ReprIntended(Result(Tuple([Int(1)]), true)) == "Result.AsValue((1,))"
    ensures Repr(Result(Tuple([]), true)) == Raised(TypeError, NotEnoughArguments)
  {
    assert Decimal(1) == "1";
    assert Decimal(2) == "2";
    var parts := seq(2, k requires 0 <= k < 2 => PyValues.Repr([Int(1), Int(2)][k]));
    assert parts == ["1", "2"];
    assert Join(parts) == "1, 2";
    assert ReprIntended(Result(Int(1), true)) == ValuePrefix + "1" + ")" == "Result.AsValue(1)";
  }

  // ---------------------------------------------------------------------
  // _Fmap and its specialisations

  /** The body of the try block: the function's outcome, then AsValue of
      what it returned (AsValue(None) raises inside the try). */
  function Attempt(call: Outcome<PyVal>): (o: Outcome<Result>)
    ensures call.Raised? ==> o == Raised(call.kind, call.message)
    ensures call.Returned? && call.value != None ==> o == Returned(Result(call.value, true))
    ensures call.Returned? && call.value == None ==> o == Raised(AssertionError, ExclusivityMessage)
  {
    match call
    case Returned(v) => AsValue(v)
    case Raised(k, m) => Raised(k, m)
  }

  /** The message an error Result gets: '%s: %s' % (class name, message). */
  function CaptureMessage(k: Kind, m: Bytes): (s: Bytes)
    ensures |s| > |KindName(k)| && s[..|KindName(k)|] == KindName(k)
  {
    KindName(k) + ": " + m
  }

  /** The captured text determines both the exception class and its message:
      no two class names agree in their first two bytes, and the message is
      everything after the class name and ": ". */
  lemma CaptureMessageInjective(a: Kind, m: Bytes, b: Kind, n: Bytes)
    requires CaptureMessage(a, m) == CaptureMessage(b, n)
    ensures a == b && m == n
  {
    var s := CaptureMessage(a, m);
    var na, nb := KindName(a), KindName(b);
    assert s[0] == na[0] && s[1] == na[1];
    assert s[0] == nb[0] && s[1] == nb[1];
    KindNamesPrefix(a, b);
    assert s[|na| + 2..] == m;
  }

  /** The except clause: an exception of a listed kind becomes an error
      Result; any other keeps propagating. */
  function Capture(o: Outcome<Result>, caught: set<Kind>): (c: Outcome<Result>)
    ensures o.Returned? ==> c == o
    ensures o.Raised? && o.kind in caught ==>
      c == Returned(Result(Str(CaptureMessage(o.kind, o.message)), false))
    ensures o.Raised? && o.kind !in caught ==> c == o
  {
    match o
    case Returned(_) => o
    case Raised(k, m) => if k in caught then AsError(Str(CaptureMessage(k, m))) else o
  }

  /** A captured message is never empty, so the `if error:` test of the
      constructor takes the error branch as intended. */
  lemma CaptureTakesErrorBranch(k: Kind, m: Bytes)
    ensures AsError(Str(CaptureMessage(k, m))) == AsErrorIntended(Str(CaptureMessage(k, m)))
  {
  }

  /** `r._Fmap(function, exceptions)`. The function is a thunk reading
      r.value; here it receives that value. */
  function Fmap(r: Result, f: PyVal -> Outcome<PyVal>, caught: set<Kind>): (o: Outcome<Result>)
    ensures !r.hasValue ==> o == Returned(r)
    ensures o.Raised? ==> o.kind !in caught
    ensures Valid(r) && o.Returned? ==> Valid(o.value)
    ensures r.hasValue && f(r.Value()).Returned? && f(r.Value()).value != None ==>
      o.Returned? && o.value.hasValue && o.value.Value() == f(r.Value()).value
    ensures r.hasValue && f(r.Value()).Raised? && f(r.Value()).kind in caught ==>
      o.Returned? && !o.value.hasValue &&
      o.value.Error() == Str(CaptureMessage(f(r.Value()).kind, f(r.Value()).message))
    ensures r.hasValue && f(r.Value()).Raised? && f(r.Value()).kind !in caught ==>
      o == Raised(f(r.Value()).kind, f(r.Value()).message)
    ensures r.hasValue && f(r.Value()) == Returned(None) && AssertionError in caught ==>
      o == Returned(Result(Str(CaptureMessage(AssertionError, ExclusivityMessage)), false))
    ensures r.hasValue && f(r.Value()) == Returned(None) && AssertionError !in caught ==>
      o == Raised(AssertionError, ExclusivityMessage)
  {
    if !r.hasValue then Returned(r)
    else Capture(Attempt(f(r.Value())), caught)
  }

  /** A function that raises on the value: the raise is captured exactly
      when its kind is listed. */
  lemma FmapOfRaise(v: PyVal, f: PyVal -> Outcome<PyVal>, caught: set<Kind>, k: Kind, m: Bytes)
    requires f(v) == Raised(k, m)
    ensures Fmap(Result(v, true), f, caught) ==
      if k in caught then Returned(Result(Str(CaptureMessage(k, m)), false)) else Raised(k, m)
  {
  }

  /** An error Result short-circuits: what the function would do does not matter. */
  lemma FmapIgnoresFunctionOnError(r: Result, f: PyVal -> Outcome<PyVal>, g: PyVal -> Outcome<PyVal>, caught: set<Kind>)
    requires !r.hasValue
    ensures Fmap(r, f, caught) == Fmap(r, g, caught) == Returned(r)
  {
  }

  /** The identity law holds, except on a value Result whose value is None:
      re-wrapping None through AsValue fails the exclusivity assertion. */
  lemma FmapIdentity(r: Result, caught: set<Kind>)
    ensures r.payload != None || !r.hasValue ==> Fmap(r, v => Returned(v), caught) == Returned(r)
    ensures r.payload == None && r.hasValue && AssertionError !in caught ==>
      Fmap(r, v => Returned(v), caught) == Raised(AssertionError, ExclusivityMessage)
  {
  }

  /** Catching more kinds never changes a Result that was produced, and only
      turns propagated exceptions into error Results. */
  lemma FmapCatchMonotone(r: Result, f: PyVal -> Outcome<PyVal>, caught: set<Kind>, wider: set<Kind>)
    requires caught <= wider
    ensures Fmap(r, f, caught).Returned? ==> Fmap(r, f, wider) == Fmap(r, f, caught)
    ensures Fmap(r, f, wider).Raised? ==> Fmap(r, f, caught) == Fmap(r, f, wider)
  {
  }

  const LookupErrors: set<Kind> := {IndexError, KeyError}

  /** `r.GetItem(key)`, also `r[key]`: _Fmap over `value[key]`, catching
      IndexError and KeyError. (The source calls `self._fmap`, a name the
      class does not define; see GetItemAsWritten.) */
  function GetItem(r: Result, key: PyVal): (o: Outcome<Result>)
    ensures !r.hasValue ==> o == Returned(r)
    ensures o.Raised? ==> o.kind == TypeError || o.kind == AssertionError
    ensures Valid(r) && o.Returned? ==> Valid(o.value)
  {
    Fmap(r, v => Subscript(v, key), LookupErrors)
  }

  /** `r.ParseInt()`: _Fmap over `int(value)`, catching ValueError. (Same
      misspelt `self._fmap` as GetItem; its docstring is GetItem's.) */
  function ParseInt(r: Result): (o: Outcome<Result>)
    ensures !r.hasValue ==> o == Returned(r)
    ensures o.Raised? ==> o.kind == TypeError
    ensures r.hasValue && o.Returned? && o.value.hasValue ==> o.value.payload.Int?
  {
    Fmap(r, IntOf, {ValueError})
  }

  /** Indexing a list or tuple value: an element in range comes back as a
      value (counting from the end for a negative index), an index out of
      range becomes an IndexError Result, and a None element fails the
      exclusivity assertion. */
  lemma GetItemSequence(xs: seq<PyVal>, tuple: bool, i: int)
    ensures var r := Result(if tuple then Tuple(xs) else List(xs), true);
            var j := if i < 0 then i + |xs| else i;
            var what: Bytes := if tuple then "tuple" else "list";
            && (0 <= j < |xs| && xs[j] != None ==> GetItem(r, Int(i)) == Returned(Result(xs[j], true)))
            && (0 <= j < |xs| && xs[j] == None ==> GetItem(r, Int(i)) == Raised(AssertionError, ExclusivityMessage))
            && (!(0 <= j < |xs|) ==>
                  GetItem(r, Int(i)) == Returned(Result(Str(CaptureMessage(IndexError, what + " index out of range")), false)))
  {
  }

  /** Indexing a string value: an index in range gives the one-character
      string there (counting from the end when negative), and an index out
      of range becomes an IndexError Result. */
  lemma GetItemString(s: Bytes, i: int)
    ensures var r := Result(Str(s), true);
            var j := if i < 0 then i + |s| else i;
            && (0 <= j < |s| ==> GetItem(r, Int(i)) == Returned(Result(Str([s[j]]), true)))
            && (!(0 <= j < |s|) ==>
                  GetItem(r, Int(i)) == Returned(Result(Str(CaptureMessage(IndexError, "string index out of range")), false)))
  {
    var j := if i < 0 then i + |s| else i;
    var f := v => Subscript(v, Int(i));
    if 0 <= j < |s| {
      assert f(Str(s)) == Returned(Str([s[j]])) by {
        assert Chars(s)[j] == Str([s[j]]);
      }
    } else {
      var what: Bytes := "string";
      var msg: Bytes := "string index out of range";
      assert f(Str(s)) == Raised(IndexError, msg) by {
        assert what + " index out of range" == msg;
      }
      FmapOfRaise(Str(s), f, LookupErrors, IndexError, msg);
    }
  }

  /** Looking a key up in a dict value: a present key gives its entry, a
      missing hashable key becomes a KeyError Result naming the key, and an
      unhashable key raises TypeError. */
  lemma GetItemDict(es: seq<(PyVal, PyVal)>, key: PyVal)
    ensures var o := GetItem(Result(Dict(es), true), key);
            && (!Hashable(key) ==> o.Raised? && o.kind == TypeError)
            && (Hashable(key) && (forall k :: 0 <= k < |es| ==> es[k].0 != key) ==>
                  o == Returned(Result(Str(CaptureMessage(KeyError, StrOf(key))), false)))
            && (Hashable(key) && (exists k :: 0 <= k < |es| && es[k].0 == key && es[k].1 != None) &&
                (forall k :: 0 <= k < |es| && es[k].0 == key ==> es[k].1 != None) ==>
                  o.Returned? && o.value.hasValue && o.value.payload != None &&
                  exists k :: 0 <= k < |es| && es[k].0 == key && o.value.payload == es[k].1)
    ensures Hashable(key) && UniqueKeys(es) ==>
              forall k :: 0 <= k < |es| && es[k].0 == key && es[k].1 != None ==>
                GetItem(Result(Dict(es), true), key) == Returned(Result(es[k].1, true))
  {
    LookupKeyFinds(es, key);
    if Hashable(key) && UniqueKeys(es) {
      forall k | 0 <= k < |es| && es[k].0 == key && es[k].1 != None
        ensures GetItem(Result(Dict(es), true), key) == Returned(Result(es[k].1, true))
      {
        LookupKeyUnique(es, key, k);
      }
    }
  }

  /** ParseInt reads back the repr of every number. */
  lemma ParseIntDecimal(i: int)
    ensures ParseInt(Result(Str(Decimal(i)), true)) == Returned(Result(Int(i), true))
  {
    IntOfDecimal(i);
  }

  /** A string int() rejects becomes a ValueError Result quoting the
      string (before any NUL, without its leading blanks, at most 200
      bytes); when ValueError is not among the caught kinds, it propagates. */
  lemma ParseIntRejects(s: Bytes)
    requires ParseIntLiteral(BeforeNul(s)) == Invalid
    ensures ParseInt(Result(Str(s), true)) ==
      Returned(Result(Str(CaptureMessage(ValueError, InvalidLiteralMessage + StrRepr(Quoted(s)))), false))
    ensures forall caught: set<Kind> :: ValueError !in caught ==>
      Fmap(Result(Str(s), true), IntOf, caught) == Raised(ValueError, InvalidLiteralMessage + StrRepr(Quoted(s)))
  {
    var msg := InvalidLiteralMessage + StrRepr(Quoted(s));
    assert IntOf(Str(s)) == Raised(ValueError, msg);
    FmapOfRaise(Str(s), IntOf, {ValueError}, ValueError, msg);
    forall caught: set<Kind> | ValueError !in caught
      ensures Fmap(Result(Str(s), true), IntOf, caught) == Raised(ValueError, msg)
    {
      FmapOfRaise(Str(s), IntOf, caught, ValueError, msg);
    }
  }

  /** Anything but a string or a number makes int() raise TypeError, which
      ParseInt lets through. */
  lemma ParseIntTypeError(v: PyVal)
    requires v.None? || v.List? || v.Tuple? || v.Dict?
    ensures ParseInt(Result(v, true)) == Raised(TypeError, IntArgumentMessage + TypeName(v) + "'")
  {
  }

  // ---------------------------------------------------------------------
  // GetItem and ParseInt as written

  const MissingFmapMessage: Bytes := "'Result' object has no attribute '_fmap'"

  /** `r.GetItem(key)` as written: looking up `self._fmap` fails before
      anything else happens. */
  function GetItemAsWritten(r: Result, key: PyVal): (o: Outcome<Result>)
    ensures o.Raised? && o.kind == AttributeError && o.kind !in LookupErrors
  {
    Raised(AttributeError, MissingFmapMessage)
  }

  /** `r.ParseInt()` as written. */
  function ParseIntAsWritten(r: Result): (o: Outcome<Result>)
    ensures o.Raised? && o.kind == AttributeError
  {
    Raised(AttributeError, MissingFmapMessage)
  }

  /** The docstring's first case, `[1][0]`, fails as written and succeeds
      under the intended definition; "1" likewise for ParseInt. */
  lemma MisspeltFmapCounterexample()
    ensures GetItemAsWritten(Result(List([Int(1)]), true), Int(0)).Raised?
    ensures GetItem(Result(List([Int(1)]), true), Int(0)) == Returned(Result(Int(1), true))
    ensures ParseIntAsWritten(Result(Str("1"), true)).Raised?
    ensures ParseInt(Result(Str("1"), true)) == Returned(Result(Int(1), true))
  {
    GetItemSequence([Int(1)], false, 0);
    ParseIntDecimal(1);
    assert Decimal(1) == "1";
  }

  // ---------------------------------------------------------------------
  // OnlyOne

  /** `OnlyOne(a_list)`: the only element, or the assertion's failure. */
  function OnlyOne<T>(xs: seq<T>): (o: Outcome<T>)
    ensures o.Returned? <==> |xs| == 1
    ensures o.Returned? ==> o.value == xs[0]
    ensures o.Raised? ==> o.kind == AssertionError
  {
    if |xs| == 1 then Returned(xs[0]) else Raised(AssertionError, "Got " + Decimal(|xs|) + " items")
  }

  /** The failure message states how many items there were. */
  lemma OnlyOneReportsCount<T>(xs: seq<T>)
    requires |xs| != 1
    ensures var m := OnlyOne(xs).message;
            |m| > 10 && m[..4] == "Got " && m[|m| - 6..] == " items" &&
            ReadDecimal(m[4..|m| - 6]) == Parsed(|xs|)
  {
    var m := OnlyOne(xs).message;
    DecimalRoundTrip(|xs|);
    assert m[4..|m| - 6] == Decimal(|xs|);
  }
}
