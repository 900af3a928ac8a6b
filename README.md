# python-pittance core in Dafny

This project models two pieces of the python-pittance utilities: `Result` with `OnlyOne` (result.py), and the memoising `Cache` (caching.py). The library is written for Python 2, so the model follows CPython 2.7 throughout:

- byte strings;
- `repr` quoting;
- the messages `int()` and subscripting raise.

- `Result` is an immutable exclusive pair, a value or an error, told apart by `has_value`.
  - `AsValue` and `AsError` build one through a private constructor that asserts exactly one argument is None.
  - The accessors `value` and `error` return the payload or None.
  - `repr` renders `Result.AsValue(<repr of payload>)` or `Result.AsError(...)`. The tag is the Result's variant, so AsError(0) renders as `Result.AsValue(None)`. The `%` operator takes a tuple payload as its argument list: an empty tuple or a tuple of two or more makes `repr` raise TypeError, and a 1-tuple renders as its element.
  - `_Fmap` applies a function to a value Result and turns the listed exception kinds into error Results. An error Result passes through untouched.
  - `GetItem` (`r[key]`) and `ParseInt` are `_Fmap` over subscripting and over `int()`.
  - The model is pure: a Result is a value, and every raise is an `Outcome` that is `Raised(kind, message)`.
- `OnlyOne` returns the single element of a list or fails its assertion.
- `Cache` stores what a function returned, keyed by the function and its arguments.
  - `retrieve` returns the stored entry on a hit. On a miss it calls the function once, stores the result and returns it.
  - `keep` wraps a function so that every call goes through `retrieve`.
  - `Cache` is a class with a `map` field. Its methods are proved against the pure function `Retrieval`, and the lemmas about caching are stated on that function.
  - A ghost log records the calls that actually reached the function. This is how the two unit-test scenarios (factorial and list arguments) are stated and proved.

Modules:

- `PyValues` (pyvalues.dfy): Python values, truthiness, `repr` and `str`, and the parsers that read a repr back.
- `PyBuiltins` (builtins.dfy): exceptions as an `Outcome`, `v[key]`, `int(v)`.
- `Results` (result.dfy): the Result type and `OnlyOne`.
- `Caching` (caching.dfy): the Cache.

Where the code and its documentation or tests disagree, the model follows the code:

- `repr` writes `Result.AsValue(...)`/`Result.AsError(...)`, with the factory names capitalised as the class defines them. The unit tests call `Result.asValue` and expect `Result.asValue(1)`, names the class does not have (`ReprExamples`).
- The `value` accessor of an error Result is None, not an optional or a raise.
- result.py and caching.py define no exception adapter, captured-failure record or sequence map. Those are not part of this model.

## Model

| member | source | states |
|---|---|---|
| Results.Result.Value | result.py:32-36 | the value property is the payload exactly for a value Result, and anything other than None it returns comes from a value Result |
| Results.Result.Error | result.py:38-42 | the error property is the payload exactly for an error Result, and anything other than None it returns comes from an error Result |
| Results.Init | result.py:22-30 | construction succeeds iff exactly one argument is None, else raises AssertionError 'Set either value or error'; the Result is an error iff the error argument is truthy, and its payload is the error argument when truthy, else the value argument; every constructed Result is Valid |
| Results.AsValue | result.py:11-14 | AsValue(p) is a value Result carrying p with error None; AsValue(None) fails the assertion |
| Results.AsError | result.py:16-19 | a truthy payload gives an error Result carrying it; None fails the assertion; a falsy non-None payload gives a value Result whose value is None (as written) |
| Results.InitIntended | result.py:24-30 | the constructor with the error argument tested against None: same assertion; the Result is an error iff error is not None; its payload is the argument that is not None |
| Results.AsErrorIntended | result.py:16-19 | every payload other than None gives an error Result carrying it |
| Results.AsErrorFalsyPayload | result.py:25 | AsError as written agrees with the intended AsError iff the payload is truthy; AsError(0) is a value Result with value None |
| Results.AccessorsExclusive | result.py:32-47 | at most one accessor is not None; on a Valid Result, error is not None iff has_value is false |
| Results.ValidIsReachable | result.py:11-30 | a Result is Valid iff AsValue or AsError builds it |
| Results.Valid | result.py:22-30 | the invariant construction gives every Result: an error Result carries a truthy payload (partner of ValidIsReachable, Init and Fmap) |
| PyValues.Truthy | result.py:25 | Python truthiness as `if error:` applies it: None, False, 0 and empty containers are false; a truthy value is never None |
| Results.Prefix | result.py:51-53 | the factory name a repr starts with has 15 bytes, and its tenth byte is V for a value Result and E for an error Result |
| Results.Repr | result.py:49-53 | as written: repr raises TypeError exactly for a tuple payload that is not a 1-tuple; any other payload renders as the intended repr; a 1-tuple renders as the intended repr of its element |
| Results.ReprIntended | result.py:51-53 | the rendering `% (payload,)` gives: the factory name, the payload's repr, and a closing parenthesis |
| Results.ReprRoundTrip | result.py:49-53 | a Result with a scalar payload has a repr, and it reads back as that Result |
| Results.ReprInjective | result.py:49-53 | two Results with scalar payloads and equal reprs are equal |
| Results.ReprShowsDiscriminator | result.py:49-53 | equal rendered reprs mean equal has_value, whatever the payloads |
| Results.ReprIntendedShowsDiscriminator | result.py:51-53 | equal intended reprs mean equal has_value, whatever the payloads |
| Results.ReprExamples | result.py:49-53 | AsValue(1) renders as Result.AsValue(1) and AsError('foo') as Result.AsError('foo'); the rendering is not the tests' Result.asValue(1) |
| Results.TupleReprCounterexample | result.py:51 | as written, repr of AsValue((1, 2)) raises 'not all arguments converted during string formatting', AsValue(()) raises 'not enough arguments for format string', and AsValue((1,)) renders Result.AsValue(1); the intended renderings are Result.AsValue((1, 2)) and Result.AsValue((1,)) |
| Results.Attempt | result.py:61 | the try body: a raise from the function propagates unchanged; a non-None return becomes a value Result; a None return fails the construction assertion |
| Results.CaptureMessage | result.py:63 | the error text starts with the exception's class name |
| Results.CaptureMessageInjective | result.py:63 | the captured text 'Kind: message' determines both the exception class and its message |
| Results.Capture | result.py:62-63 | a raise of a listed kind becomes an error Result carrying 'Kind: message'; other raises and returns pass through unchanged |
| Results.CaptureTakesErrorBranch | result.py:63 | a captured message is never empty, so AsError as written builds the same error Result as the intended AsError |
| Results.Fmap | result.py:57-63 | an error Result is returned as is; a value Result maps to AsValue(f(value)); if f returns None, that AsValue's AssertionError is captured when listed and propagates otherwise; a listed exception becomes an error Result with 'Kind: message'; an unlisted one propagates; no listed kind ever escapes; Valid is preserved |
| Results.FmapIgnoresFunctionOnError | result.py:58-59 | on an error Result the function is never consulted |
| Results.FmapOfRaise | result.py:60-63 | when the function raises on the value, the raise is an error Result 'Kind: message' if its kind is listed, and propagates unchanged otherwise |
| Results.FmapIdentity | result.py:57-63 | mapping the identity returns the Result unchanged, except on a value Result whose value is None, where the re-wrap fails the assertion |
| Results.FmapCatchMonotone | result.py:62 | catching more kinds leaves every returned Result unchanged and only turns propagated raises into error Results |
| Results.GetItem | result.py:65-78 | an error Result is returned as is; only TypeError or AssertionError propagate, so IndexError and KeyError never escape; Valid is preserved |
| Results.GetItemSequence | result.py:65-78 | on a list or tuple value: an index in range, counting from the end when negative, gives that element; an index out of range gives an error Result 'IndexError: list index out of range' (tuple index for a tuple) |
| Results.GetItemString | result.py:65-78 | on a string value: an index in range, counting from the end when negative, gives the one-character string there; an index out of range gives an error Result 'IndexError: string index out of range' |
| Results.GetItemDict | result.py:65-78 | on a dict value: a present key gives its entry; a missing hashable key gives an error Result 'KeyError: key'; an unhashable key raises TypeError; when each key is held once, as in a Python dict, a present key with a non-None value gives exactly that value |
| Results.ParseInt | result.py:80-91 | an error Result is returned as is; only TypeError propagates; a successful value Result holds an int |
| Results.ParseIntDecimal | result.py:91 | ParseInt of the decimal text of any integer is that integer |
| Results.ParseIntRejects | result.py:91 | a string whose text before any NUL int() rejects becomes an error Result 'ValueError: invalid literal for int() with base 10: ' followed by the repr of that text without leading blanks, cut to 200 bytes; for every set of caught kinds without ValueError, the same ValueError propagates |
| Results.ParseIntTypeError | result.py:91 | None, a list, a tuple or a dict makes int() raise a TypeError, which ParseInt lets through |
| Results.GetItemAsWritten | result.py:76 | as written, GetItem looks up self._fmap, which the class does not define, and raises AttributeError for every input |
| Results.ParseIntAsWritten | result.py:91 | as written, ParseInt raises AttributeError for every input |
| Results.MisspeltFmapCounterexample | result.py:76 | [1][0] and '1' raise as written, but give 1 under the intended definitions |
| Results.OnlyOne | result.py:94-105 | returns the element iff the list has exactly one, else raises AssertionError |
| Results.OnlyOneReportsCount | result.py:104 | the failure message 'Got N items' carries the list's length in decimal |
| PyValues.NatDecimalDigits | result.py:51 | the decimal rendering of a natural is non-empty digits without a leading zero, denoting the number |
| PyValues.DecimalRoundTrip | result.py:51 | the repr of an int reads back as that int |
| PyValues.QuoteFor | result.py:51 | repr of a string picks double quotes iff it holds a single quote and no double quote, and single quotes otherwise |
| PyValues.EscapeRoundTrip | result.py:51 | the escapes repr writes between quotes undo to the original bytes |
| PyValues.EscapeBodyPrintable | result.py:51 | repr writes only printable ASCII between its quotes: control bytes and bytes from 0x7f up are always escaped |
| PyValues.StrRepr | result.py:51 | the repr of a string starts and ends with the quote QuoteFor picks (round trip in StrReprRoundTrip) |
| PyValues.StrReprRoundTrip | result.py:51 | the repr of a string is a quoted literal that reads back as the string |
| PyValues.EscapePlain | result.py:51 | printable bytes other than the quote and the backslash are written unescaped |
| PyValues.StrReprPlain | result.py:51 | a string of such bytes is rendered as itself between single quotes |
| PyValues.StrReprInjective | result.py:51 | distinct strings have distinct reprs |
| PyValues.AtomReprRoundTrip | result.py:51-53 | the repr of None, a bool, an int or a string reads back as that value |
| PyValues.Repr | result.py:51-53 | %r of a value: a string renders quoted, a list in brackets, a tuple in parentheses, a dict in braces; scalars read back by AtomReprRoundTrip |
| PyValues.StrOf | result.py:63 | '%s' of a value: a string is itself, anything else its repr (the KeyError message names the key this way) |
| PyBuiltins.KindName | result.py:63 | the exception class name written before the message; every such name ends in 'Error' |
| PyBuiltins.KindNamesDistinct | result.py:63 | distinct exception kinds have distinct class names |
| PyBuiltins.KindNamesPrefix | result.py:63 | distinct class names already differ in their first two bytes, so the captured text tells the kinds apart |
| PyBuiltins.Hashable | result.py:76 | lists and dicts are unhashable; None, bools, ints and strings are hashable; a tuple is hashable iff all its items are |
| PyBuiltins.IndexInto | result.py:76 | a key that is not an int or bool raises TypeError and nothing else does; an index in range, counting from the end when negative, gives the element at that position; any other index raises '<type> index out of range' |
| PyBuiltins.LookupKey | result.py:76 | looking up a dict key raises only KeyError |
| PyBuiltins.LookupKeyUnique | result.py:76 | in a dict that holds each key once, d[key] is the value of the entry holding the key |
| PyBuiltins.LookupKeyFinds | result.py:76 | a dict lookup succeeds iff some entry has the key, returns that entry's value, and otherwise raises KeyError naming the key |
| PyBuiltins.Chars | result.py:76 | indexing a string sees its one-character strings |
| PyBuiltins.Subscript | result.py:76 | KeyError comes only from a dict; IndexError only from a list, tuple or string |
| PyBuiltins.DropSpaces | result.py:91 | int() skips a blank prefix: the rest is no longer than the text and does not start with a blank |
| PyBuiltins.DropSpacesSplit | result.py:91 | what DropSpaces removes is a run of blanks, and what it returns is the rest of the text |
| PyBuiltins.LeadingDigits | result.py:91 | the longest run of digits starting the text |
| PyBuiltins.ParseIntLiteral | result.py:91 | the base-10 grammar int() accepts: blanks, an optional sign, blanks, digits, blanks. The lemmas that follow state it in both directions: every text of that form is accepted with the value it spells, and every other text falls under one of the rejection lemmas |
| PyBuiltins.ParseIntLiteralUnsigned | result.py:91 | digits between blanks parse to the number they spell |
| PyBuiltins.ParseIntLiteralSigned | result.py:91 | a sign, with blanks around it, then digits and blanks, parse to the signed number |
| PyBuiltins.ParseIntLiteralDigits | result.py:91 | a bare run of digits, or one behind a minus sign, parses to the number it spells |
| PyBuiltins.ParseIntLiteralBlank | result.py:91 | empty or all-blank text is rejected |
| PyBuiltins.ParseIntLiteralBadStart | result.py:91 | text whose first non-blank byte is neither a sign nor a digit, such as 'Foo' or ' foo', is rejected |
| PyBuiltins.ParseIntLiteralBadAfterSign | result.py:91 | a sign not followed, after blanks, by a digit ('-', '+ x', '--1') is rejected |
| PyBuiltins.ParseIntLiteralTrailing | result.py:91 | digits followed by anything but blanks ('12a', '1 2') are rejected |
| PyBuiltins.ParseIntLiteralSignedTrailing | result.py:91 | the same for a signed literal ('-12a') |
| PyBuiltins.ParseUnsignedAfterDigits | result.py:91 | after a maximal digit run, a sign-resolved literal is accepted exactly when only blanks follow |
| PyBuiltins.ParseUnsignedTrailing | result.py:91 | a digit run followed by a non-blank, non-digit byte is rejected with either sign |
| PyBuiltins.ParseIntLiteralDecimal | result.py:91 | int() reads back the decimal rendering of every integer |
| PyBuiltins.BeforeNul | result.py:91 | int() sees the text up to the first NUL byte |
| PyBuiltins.IntOfStr | result.py:91 | int() of a string returns exactly when the text before the first NUL parses and there is no NUL, with the parsed number; otherwise it raises ValueError quoting the text without leading blanks, or the null-byte ValueError |
| PyBuiltins.Quoted | result.py:91 | the quoted text is at most 200 bytes, a prefix of the text before the first NUL once leading blanks are skipped, and all of it when that is short enough |
| PyBuiltins.QuotedWithoutBlanks | result.py:91 | leading blanks never reach the message: int('  x') quotes what int('x') quotes |
| PyBuiltins.IntOf | result.py:91 | int of an int is itself, of a bool 0 or 1, of a string is IntOfStr; it raises ValueError only for a string, and TypeError exactly for anything but a string or a number |
| PyBuiltins.IntOfDecimal | result.py:91 | int() of the repr of an integer returns that integer |
| Caching.Find | caching.py:14-15 | a lookup finds an entry iff the key is stored, and finds that entry; Absent plays the sentinel |
| Caching.Retrieval | caching.py:11-18 | after retrieve the key is stored with the returned value; a hit returns the stored value and leaves the table unchanged; a miss returns the function's result and stores it |
| Caching.RetrievalOnlyGrows | caching.py:14-17 | retrieve adds at most the requested key and never changes another entry |
| Caching.RetrievalIsTransparent | caching.py:11-18 | on a table of true results, retrieve returns what calling the function returns, and the table still holds only true results |
| Caching.RetrievalRepeats | caching.py:14-18 | a second retrieve with the same function and arguments is a hit returning the first result, whatever the function would now return |
| Caching.KeysSeparateFunctions | caching.py:13 | an entry stored for one function is no hit for another function with the same arguments |
| Caching.StoredNoneIsHit | caching.py:6-15 | a stored None is returned as a hit; only the sentinel marks a miss |
| Caching.Cache.constructor | caching.py:8-9 | a new cache has an empty table and has called nothing |
| Caching.Cache.Get | caching.py:14 | finds the entry iff the key is stored, and returns that entry |
| Caching.Cache.Store | caching.py:17 | sets the key's entry and changes nothing else |
| Caching.Cache.Retrieve | caching.py:11-18 | the returned value and new table are those of Retrieval; the function is logged as called iff the key was missing |
| Caching.Cache.Kept | caching.py:20-25 | calling the wrapped function behaves exactly as retrieve |
| Caching.FactCallsShape | caching_test.py:14-19 | a cached fact(n) calls the undecorated function on n, n-1, ... in turn, each a missing argument, at most n of them |
| Caching.FactCallsMiss | caching_test.py:14-19 | on a miss, fact(n) first calls for n, then for what fact(n-1) needs, never n again |
| Caching.CachedFact | caching_test.py:14-19 | the cached fact(n) returns n!, keeps a table of true factorials, adds exactly the arguments it called for, and logs them in order |
| Caching.FactorialScenario | caching_test.py:10-23 | fact(5) then fact(6) gives 720, with calls for 5, 4, 3, 2, 1 and then only for 6 |
| Caching.ListArgsScenario | caching_test.py:25-38 | equal lists built two ways share one entry: both calls give 45 and the function runs once |

## Left out

- `Timer` and `Percent` in result.py: they read the clock and compute with floats.
- Pickling of the arguments (caching.py:12). A key holds the argument values themselves, so two calls share an entry exactly when their arguments are equal values. Pickle's own failures (unpicklable arguments) are not modelled.
- The dict-argument test (caching_test.py:40-57). It relies on Python 2 dict iteration order inside pickle, which the model's ordered entries do not reproduce.
- Keyword arguments and the `__name__` copy in `keep` (caching.py:22-24). The model's functions take one argument value, which may be a tuple or list.
- Caching.Cache.Retrieve: the function is a total Dafny function, so a call that raises, and leaves the table unchanged, is not modelled.
- Caching.Cache.Kept: the wrapped function cannot call its own wrapper, so a recursive function such as fact in caching_test.py:14-19 is outside its contract, for the reason given on the next line.
- Caching.Cache.Retrieve: the function cannot call back into the cache, so a function that re-enters it, as the recursive fact of caching_test.py:14-19 does through its own wrapper, is outside the contract; there the inner calls add their own entries, which Retrieval does not account for. Caching.CachedFact models that case by carrying out retrieve's steps (lookup, call, store) around its recursive call, and does not call Retrieve.
- Results.Fmap: exceptions are matched by exact kind, not by subclass. An `except` clause naming a base class (`LookupError`) is not modelled.
- PyBuiltins.LookupKey: dict lookup uses structural equality. Python's cross-type equality (`True == 1`) and hashing are not modelled.
- PyBuiltins.Subscript: slices, and payloads other than None, bool, int, str, list, tuple and dict (floats, unicode, arbitrary objects), are not modelled.
- PyBuiltins.IntOfStr: a literal too large for a machine int is handed to Python's long parser. Only text that has already passed int()'s grammar gets there, and it is read to the same value, so the model gives the right number. What it does not capture is that the result is then a long rather than an int.
- The `L` suffix that `repr` gives Python 2 longs is not modelled: every integer renders as plain digits.
- `Result` defines no `__eq__`, so Python compares Results by identity, and `_Fmap` on a value Result returns a new object (result.py:61). In the model a Result is a value: "returns the Result unchanged" (FmapIdentity, FmapIgnoresFunctionOnError) and "equal Results" (ReprInjective) mean equal has_value and payload, not the same object.
- `repr` of a dict lists entries in the model's order. Python 2 lists them in hash-table order.
- `assert` statements disabled under `python -O` are not modelled. The construction assertion and OnlyOne's assertion always fire.
- Results.ReprRoundTrip and Results.ReprInjective are stated for scalar payloads (None, bool, int, str). For container payloads only the discriminator is proved to read back (`ReprShowsDiscriminator`).
- IndexInto: an index beyond a machine word makes CPython raise IndexError "cannot fit 'long' into an index-sized integer". The model raises the same kind with the message "index out of range".

## Findings

| source | as written | input that shows it | evidently intended | confidence | as-written member | corrected member |
|---|---|---|---|---|---|---|
| result.py:76,91 | GetItem and ParseInt call `self._fmap`, but the method is defined as `_Fmap`, so both raise AttributeError on every call | `Result.AsValue([1]).GetItem(0)` and `Result.AsValue('1').ParseInt()` | call `_Fmap`, so `[1][0]` gives AsValue(1) and '1' gives AsValue(1) | not executed | Results.GetItemAsWritten, Results.ParseIntAsWritten, Results.MisspeltFmapCounterexample | Results.GetItem, Results.ParseInt |
| result.py:25 | the constructor picks the error branch with `if error:`, so a falsy error payload is taken for a value | `Result.AsError(0)` is a value Result whose value and error are both None | test `error is not None`, as the assertion on line 24 does, so AsError(0) is an error carrying 0 | not executed | Results.AsError, Results.AsErrorFalsyPayload | Results.AsErrorIntended, Results.InitIntended |
| result.py:51,53 | `'Result.AsValue(%r)' % payload` hands a tuple payload to `%` as its argument list | `repr(Result.AsValue((1, 2)))` raises TypeError, and `repr(Result.AsValue((1,)))` is `Result.AsValue(1)` | format `% (payload,)`, so every payload renders as its own repr: `Result.AsValue((1, 2))`, `Result.AsValue((1,))` | not executed | Results.Repr, Results.TupleReprCounterexample | Results.ReprIntended, Results.ReprIntendedShowsDiscriminator |
