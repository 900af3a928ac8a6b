/** The Python 2 builtins that Result's combinators call: raising an
    exception, subscripting with v[key], and converting with int(v). */
module PyBuiltins {
  import opened PyValues

  /** e.__class__ of the exceptions the modelled code can meet. */
  datatype Kind = AssertionError | AttributeError | IndexError | KeyError | TypeError | ValueError

  /** e.__class__.__name__ */
  function KindName(k: Kind): (n: Bytes)
    ensures 8 <= |n| && n[|n| - 5..] == "Error"
  {
    match k
    case AssertionError => "AssertionError"
    case AttributeError => "AttributeError"
    case IndexError => "IndexError"
    case KeyError => "KeyError"
    case TypeError => "TypeError"
    case ValueError => "ValueError"
  }

  /** The class name in a captured message tells the exception kinds apart. */
  lemma KindNamesDistinct(a: Kind, b: Kind)
    requires a != b
    ensures KindName(a) != KindName(b)
  {
    var na, nb := KindName(a), KindName(b);
    assert |na| != |nb| || na[0] != nb[0] || na[1] != nb[1];
  }

  /** Stronger: distinct class names already differ in their first two bytes. */
  lemma KindNamesPrefix(a: Kind, b: Kind)
    ensures KindName(a)[0] == KindName(b)[0] && KindName(a)[1] == KindName(b)[1] ==> a == b
  {
  }

  /** What a Python call does: return a value, or raise an exception of some
      kind whose message is given as '%s' renders e.message. */
  datatype Outcome<T> = Returned(value: T) | Raised(kind: Kind, message: Bytes)

  // ---------------------------------------------------------------------
  // v[key]

  /** hash(v) succeeds: lists and dicts are unhashable, and so is a tuple
      that holds one. */
  predicate Hashable(v: PyVal)
    ensures Hashable(v) ==> !v.List? && !v.Dict?
    ensures IsAtom(v) ==> Hashable(v)
    decreases v
  {
    match v
    case List(_) => false
    case Dict(_) => false
    case Tuple(xs) => forall k :: 0 <= k < |xs| ==> Hashable(xs[k])
    case _ => true
  }

  /** The type name hash() complains about: the first unhashable part. */
  function UnhashableName(v: PyVal): Bytes
    requires !Hashable(v)
    decreases v
  {
    match v
    case Tuple(xs) => UnhashableIn(v, xs)
    case _ => TypeName(v)
  }

  function UnhashableIn(parent: PyVal, xs: seq<PyVal>): Bytes
    requires forall k :: 0 <= k < |xs| ==> xs[k] < parent
    requires exists k :: 0 <= k < |xs| && !Hashable(xs[k])
    decreases parent, |xs|
  {
    if !Hashable(xs[0]) then UnhashableName(xs[0]) else UnhashableIn(parent, xs[1..])
  }

  /** An int-like key used as a sequence index (bool is a subclass of int). */
  function AsIndex(key: PyVal): Parse<int> {
    match key
    case Int(i) => Parsed(i)
    case Bool(b) => Parsed(if b then 1 else 0)
    case _ => Invalid
  }

  /** xs[key] for a list, tuple or string; a negative index counts from the end. */
  function IndexInto(xs: seq<PyVal>, key: PyVal, what: Bytes): (o: Outcome<PyVal>)
    ensures AsIndex(key).Invalid? <==> o.Raised? && o.kind == TypeError
    ensures AsIndex(key).Parsed? ==>
      var i := AsIndex(key).value;
      var j := if i < 0 then i + |xs| else i;
      && (0 <= j < |xs| ==> o == Returned(xs[j]))
      && (!(0 <= j < |xs|) ==> o == Raised(IndexError, what + " index out of range"))
  {
    match AsIndex(key)
    case Invalid => Raised(TypeError, what + " indices must be integers, not " + TypeName(key))
    case Parsed(i) =>
      var j := if i < 0 then i + |xs| else i;
      if 0 <= j < |xs| then Returned(xs[j]) else Raised(IndexError, what + " index out of range")
  }

  /** d[key] over the entries of a dict holding a hashable key. */
  function LookupKey(es: seq<(PyVal, PyVal)>, key: PyVal): (o: Outcome<PyVal>)
    ensures o.Raised? ==> o.kind == KeyError
    decreases |es|
  {
    if es == [] then Raised(KeyError, StrOf(key))
    else if es[0].0 == key then Returned(es[0].1)
    else LookupKey(es[1..], key)
  }

  /** A Python dict holds each key once. */
  predicate UniqueKeys(es: seq<(PyVal, PyVal)>)
  {
    forall j, k :: 0 <= j < k < |es| ==> es[j].0 != es[k].0
  }

  /** With each key held once, d[key] is the value of the entry that holds it. */
  lemma LookupKeyUnique(es: seq<(PyVal, PyVal)>, key: PyVal, k: int)
    requires UniqueKeys(es) && 0 <= k < |es| && es[k].0 == key
    ensures LookupKey(es, key) == Returned(es[k].1)
  {
    LookupKeyFinds(es, key);
  }

  lemma {:induction false} LookupKeyFinds(es: seq<(PyVal, PyVal)>, key: PyVal)
    ensures LookupKey(es, key).Returned? <==> exists k :: 0 <= k < |es| && es[k].0 == key
    ensures LookupKey(es, key).Returned? ==>
      exists k :: 0 <= k < |es| && es[k].0 == key && LookupKey(es, key).value == es[k].1
    ensures LookupKey(es, key).Raised? ==> LookupKey(es, key) == Raised(KeyError, StrOf(key))
    decreases |es|
  {
    if es != [] && es[0].0 != key {
      LookupKeyFinds(es[1..], key);
      assert forall k :: 1 <= k < |es| ==> es[k] == es[1..][k - 1];
    }
  }

  /** The one-character strings of s, for indexing into a string. */
  function Chars(s: Bytes): (xs: seq<PyVal>)
    ensures |xs| == |s| && forall k :: 0 <= k < |s| ==> xs[k] == Str([s[k]])
  {
    seq(|s|, k requires 0 <= k < |s| => Str([s[k]]))
  }

  /** container[key], with the exceptions CPython 2.7 raises. */
  function Subscript(container: PyVal, key: PyVal): (o: Outcome<PyVal>)
    ensures o.Raised? && o.kind == KeyError ==> container.Dict?
    ensures o.Raised? && o.kind == IndexError ==> container.List? || container.Tuple? || container.Str?
  {
    match container
    case List(xs) => IndexInto(xs, key, "list")
    case Tuple(xs) => IndexInto(xs, key, "tuple")
    case Str(s) => IndexInto(Chars(s), key, "string")
    case Dict(es) =>
      if !Hashable(key) then Raised(TypeError, "unhashable type: '" + UnhashableName(key) + "'")
      else LookupKey(es, key)
    case _ => Raised(TypeError, "'" + TypeName(container) + "' object has no attribute '__getitem__'")
  }

  // ---------------------------------------------------------------------
  // int(v)

  /** C isspace: the characters int() skips around a literal. */
  predicate IsSpace(c: Byte) {
    c == ' ' || c == '\t' || c == '\n' || c == '\r' || c as int == 0x0b || c as int == 0x0c
  }

  function DropSpaces(t: Bytes): (r: Bytes)
    ensures r == [] || !IsSpace(r[0])
    ensures |r| <= |t|
    decreases |t|
  {
    if t != [] && IsSpace(t[0]) then DropSpaces(t[1..]) else t
  }

  /** DropSpaces removes exactly a run of leading blanks: t is that run
      followed by the result. */
  lemma {:induction false} DropSpacesSplit(t: Bytes)
    ensures var r := DropSpaces(t);
            && r == t[|t| - |r|..]
            && AllSpaces(t[..|t| - |r|])
    decreases |t|
  {
    if t != [] && IsSpace(t[0]) {
      DropSpacesSplit(t[1..]);
      var r := DropSpaces(t);
      var n := |t| - |r|;
      assert r == t[1..][|t| - 1 - |r|..];
      assert t[1..][|t| - 1 - |r|..] == t[n..];
      assert AllSpaces(t[1..][..n - 1]);
      assert forall k :: 1 <= k < n ==> t[..n][k] == t[1..][..n - 1][k - 1];
    }
  }

  /** The longest run of digits that t starts with. */
  function LeadingDigits(t: Bytes): (d: Bytes)
    ensures AllDigits(d) && d <= t
    ensures |d| < |t| ==> !IsDigit(t[|d|])
    decreases |t|
  {
    if t != [] && IsDigit(t[0]) then [t[0]] + LeadingDigits(t[1..]) else []
  }

  predicate AllSpaces(t: Bytes) {
    forall k :: 0 <= k < |t| ==> IsSpace(t[k])
  }

  /** Digits followed by nothing but blanks, read as a number of the given sign. */
  function ParseUnsigned(b: Bytes, negative: bool): Parse<int> {
    var d := LeadingDigits(b);
    if d != [] && AllSpaces(b[|d|..]) then
      Parsed(if negative then -(DigitsValue(d) as int) else DigitsValue(d))
    else Invalid
  }

  /** The literals int() accepts in base 10: blanks, an optional sign, more
      blanks, one or more digits, and trailing blanks. */
  function ParseIntLiteral(t: Bytes): Parse<int> {
    var a := DropSpaces(t);
    if a != [] && a[0] == '-' then ParseUnsigned(DropSpaces(a[1..]), true)
    else if a != [] && a[0] == '+' then ParseUnsigned(DropSpaces(a[1..]), false)
    else ParseUnsigned(a, false)
  }

  lemma ParseUnsignedOf(digits: Bytes, post: Bytes, negative: bool)
    requires digits != [] && AllDigits(digits) && AllSpaces(post)
    ensures ParseUnsigned(digits + post, negative) ==
      Parsed(if negative then -(DigitsValue(digits) as int) else DigitsValue(digits))
  {
    assert post == [] || IsSpace(post[0]);
    ParseUnsignedAfterDigits(digits, post, negative);
  }

  /** Once the digit run ends, ParseUnsigned accepts exactly when only
      blanks follow. */
  lemma ParseUnsignedAfterDigits(digits: Bytes, post: Bytes, negative: bool)
    requires digits != [] && AllDigits(digits)
    requires post == [] || !IsDigit(post[0])
    ensures ParseUnsigned(digits + post, negative) ==
      if AllSpaces(post) then
        Parsed(if negative then -(DigitsValue(digits) as int) else DigitsValue(digits))
      else Invalid
  {
    var b := digits + post;
    assert LeadingDigits(b) == digits by { LeadingDigitsOf(digits, post); }
    assert b[|digits|..] == post;
  }

  /** An unsigned literal between blanks is accepted, with the value it spells. */
  lemma ParseIntLiteralUnsigned(pre: Bytes, digits: Bytes, post: Bytes)
    requires AllSpaces(pre) && AllSpaces(post)
    requires digits != [] && AllDigits(digits)
    ensures ParseIntLiteral(pre + digits + post) == Parsed(DigitsValue(digits) as int)
  {
    var rest := digits + post;
    assert pre + digits + post == pre + rest;
    ParseIntLiteralNoSign(pre, rest);
    ParseUnsignedOf(digits, post, false);
  }

  /** After blanks, a digit starts an unsigned literal. */
  lemma ParseIntLiteralNoSign(pre: Bytes, a: Bytes)
    requires AllSpaces(pre)
    requires a != [] && IsDigit(a[0])
    ensures ParseIntLiteral(pre + a) == ParseUnsigned(a, false)
  {
    assert !IsSpace(a[0]) && a[0] != '-' && a[0] != '+';
    assert DropSpaces(pre + a) == a by { DropSpacesPrefix(pre, a); }
  }

  /** A signed literal, with blanks around the sign and after the digits, is
      accepted with the value it spells. */
  lemma ParseIntLiteralSigned(pre: Bytes, sign: Byte, mid: Bytes, digits: Bytes, post: Bytes)
    requires AllSpaces(pre) && AllSpaces(mid) && AllSpaces(post)
    requires sign == '-' || sign == '+'
    requires digits != [] && AllDigits(digits)
    ensures ParseIntLiteral(pre + [sign] + mid + digits + post) ==
      Parsed(if sign == '-' then -(DigitsValue(digits) as int) else DigitsValue(digits))
  {
    var rest := digits + post;
    assert pre + [sign] + mid + digits + post == pre + [sign] + (mid + rest);
    ParseIntLiteralAfterSign(pre, sign, mid + rest);
    assert DropSpaces(mid + rest) == rest by { DropSpacesPrefix(mid, rest); }
    ParseUnsignedOf(digits, post, sign == '-');
  }

  lemma {:induction false} DropSpacesPrefix(pre: Bytes, rest: Bytes)
    requires AllSpaces(pre)
    requires rest == [] || !IsSpace(rest[0])
    ensures DropSpaces(pre + rest) == rest
    decreases |pre|
  {
    if pre != [] {
      assert (pre + rest)[1..] == pre[1..] + rest;
      DropSpacesPrefix(pre[1..], rest);
    }
  }

  lemma {:induction false} LeadingDigitsOf(digits: Bytes, post: Bytes)
    requires AllDigits(digits) && (post == [] || !IsDigit(post[0]))
    ensures LeadingDigits(digits + post) == digits
    decreases |digits|
  {
    if digits != [] {
      assert (digits + post)[1..] == digits[1..] + post;
      LeadingDigitsOf(digits[1..], post);
    }
  }

  /** int() reads back every number's repr. */
  lemma ParseIntLiteralDecimal(i: int)
    ensures ParseIntLiteral(Decimal(i)) == Parsed(i)
  {
    if i < 0 {
      var n: nat := -i;
      assert Decimal(i) == ['-'] + NatDecimal(n);
      ParseIntLiteralNegative(n);
    } else {
      ParseIntLiteralNat(i);
    }
  }

  /** Digits with nothing after them parse, with either sign, to their value. */
  lemma ParseUnsignedDigits(d: Bytes, negative: bool)
    requires d != [] && AllDigits(d)
    ensures DropSpaces(d) == d
    ensures ParseUnsigned(d, negative) == Parsed(if negative then -(DigitsValue(d) as int) else DigitsValue(d))
  {
    assert !IsSpace(d[0]);
    assert d + [] == d;
    ParseUnsignedOf(d, [], negative);
  }

  /** A bare run of digits, or one behind a minus sign, is read as the number it spells. */
  lemma ParseIntLiteralDigits(d: Bytes)
    requires d != [] && AllDigits(d)
    ensures ParseIntLiteral(d) == Parsed(DigitsValue(d) as int)
    ensures ParseIntLiteral(['-'] + d) == Parsed(-(DigitsValue(d) as int))
  {
    ParseUnsignedDigits(d, false);
    ParseUnsignedDigits(d, true);
    assert d[0] != '-' && d[0] != '+';
    var t := ['-'] + d;
    assert !IsSpace(t[0]);
    assert t[1..] == d;
  }

  lemma ParseIntLiteralNegative(n: nat)
    ensures ParseIntLiteral(['-'] + NatDecimal(n)) == Parsed(-(n as int))
  {
    NatDecimalDigits(n);
    ParseIntLiteralMinusOf(NatDecimal(n), n);
  }

  lemma ParseIntLiteralMinusOf(d: Bytes, v: nat)
    requires d != [] && AllDigits(d) && DigitsValue(d) == v
    ensures ParseIntLiteral(['-'] + d) == Parsed(-(v as int))
  {
    ParseIntLiteralDigits(d);
  }

  lemma ParseIntLiteralNat(n: nat)
    ensures ParseIntLiteral(NatDecimal(n)) == Parsed(n)
  {
    NatDecimalDigits(n);
    ParseIntLiteralDigits(NatDecimal(n));
  }

  // The lemmas above show that every literal of the grammar is accepted; the
  // ones below show that nothing else is. Any text is blanks followed by
  // either nothing (ParseIntLiteralBlank), a byte that cannot start a literal
  // (ParseIntLiteralBadStart), digits (ParseIntLiteralUnsigned or
  // ParseIntLiteralTrailing), or a sign and blanks followed by nothing or a
  // non-digit (ParseIntLiteralBadAfterSign) or by digits
  // (ParseIntLiteralSigned or ParseIntLiteralSignedTrailing).

  /** Digits followed by anything but blanks are rejected, with either sign. */
  lemma ParseUnsignedTrailing(digits: Bytes, post: Bytes, negative: bool)
    requires digits != [] && AllDigits(digits)
    requires !AllSpaces(post) && !IsDigit(post[0])
    ensures ParseUnsigned(digits + post, negative) == Invalid
  {
    ParseUnsignedAfterDigits(digits, post, negative);
  }

  /** Blanks alone, the empty text included, are no integer. */
  lemma ParseIntLiteralBlank(t: Bytes)
    requires AllSpaces(t)
    ensures ParseIntLiteral(t) == Invalid
  {
    assert t + [] == t;
    DropSpacesPrefix(t, []);
  }

  /** Text whose first non-blank byte is neither a sign nor a digit, such as
      'Foo' or ' foo', is no integer. */
  lemma ParseIntLiteralBadStart(pre: Bytes, c: Byte, rest: Bytes)
    requires AllSpaces(pre)
    requires !IsSpace(c) && !IsDigit(c) && c != '+' && c != '-'
    ensures ParseIntLiteral(pre + [c] + rest) == Invalid
  {
    var a := [c] + rest;
    assert DropSpaces(pre + [c] + rest) == a by {
      assert pre + [c] + rest == pre + a;
      DropSpacesPrefix(pre, a);
    }
    assert LeadingDigits(a) == [];
  }

  /** A sign with no digits after its blanks, as in '-', '+ x' or '--1', is
      no integer. */
  lemma ParseIntLiteralBadAfterSign(pre: Bytes, sign: Byte, mid: Bytes, rest: Bytes)
    requires AllSpaces(pre) && AllSpaces(mid)
    requires sign == '-' || sign == '+'
    requires rest == [] || (!IsSpace(rest[0]) && !IsDigit(rest[0]))
    ensures ParseIntLiteral(pre + [sign] + mid + rest) == Invalid
  {
    assert pre + [sign] + mid + rest == pre + [sign] + (mid + rest);
    ParseIntLiteralAfterSign(pre, sign, mid + rest);
    DropSpacesPrefix(mid, rest);
    assert LeadingDigits(rest) == [];
  }

  /** After blanks and a sign, int() reads the rest as unsigned digits. */
  lemma ParseIntLiteralAfterSign(pre: Bytes, sign: Byte, r: Bytes)
    requires AllSpaces(pre)
    requires sign == '-' || sign == '+'
    ensures ParseIntLiteral(pre + [sign] + r) == ParseUnsigned(DropSpaces(r), sign == '-')
  {
    DropSpacesBefore(pre, sign, r);
    assert ([sign] + r)[1..] == r;
  }

  /** Blanks in front of a non-blank byte are all that DropSpaces removes. */
  lemma DropSpacesBefore(pre: Bytes, c: Byte, r: Bytes)
    requires AllSpaces(pre) && !IsSpace(c)
    ensures DropSpaces(pre + [c] + r) == [c] + r
  {
    assert pre + [c] + r == pre + ([c] + r);
    DropSpacesPrefix(pre, [c] + r);
  }

  /** Unsigned digits followed by a byte other than a blank or a digit, as in
      '12a' or '1 2', are no integer. */
  lemma ParseIntLiteralTrailing(pre: Bytes, digits: Bytes, post: Bytes)
    requires AllSpaces(pre)
    requires digits != [] && AllDigits(digits)
    requires !AllSpaces(post) && !IsDigit(post[0])
    ensures ParseIntLiteral(pre + digits + post) == Invalid
  {
    var rest := digits + post;
    assert pre + digits + post == pre + rest;
    ParseIntLiteralNoSign(pre, rest);
    ParseUnsignedTrailing(digits, post, false);
  }

  /** The same for a signed literal, as in '-12a' or '+ 1 2'. */
  lemma ParseIntLiteralSignedTrailing(pre: Bytes, sign: Byte, mid: Bytes, digits: Bytes, post: Bytes)
    requires AllSpaces(pre) && AllSpaces(mid)
    requires sign == '-' || sign == '+'
    requires digits != [] && AllDigits(digits)
    requires !AllSpaces(post) && !IsDigit(post[0])
    ensures ParseIntLiteral(pre + [sign] + mid + digits + post) == Invalid
  {
    var rest := digits + post;
    assert pre + [sign] + mid + digits + post == pre + [sign] + (mid + rest);
    ParseIntLiteralAfterSign(pre, sign, mid + rest);
    assert DropSpaces(mid + rest) == rest by { DropSpacesPrefix(mid, rest); }
    ParseUnsignedTrailing(digits, post, sign == '-');
  }

  /** The part of s that C code sees: everything before the first NUL. */
  function BeforeNul(s: Bytes): (c: Bytes)
    ensures c <= s && '\0' !in c
    ensures |c| < |s| ==> s[|c|] == '\0'
    ensures |c| < |s| <==> '\0' in s
    decreases |s|
  {
    if s == [] || s[0] == '\0' then [] else [s[0]] + BeforeNul(s[1..])
  }

  function Min(a: int, b: int): int { if a < b then a else b }

  const InvalidLiteralMessage: Bytes := "invalid literal for int() with base 10: "
  const NullByteMessage: Bytes := "null byte in argument for int()"
  const IntArgumentMessage: Bytes := "int() argument must be " + "a string or a number, not '"

  /** What the invalid-literal message quotes: the text before the first
      NUL, without its leading blanks, cut to 200 bytes. */
  function Quoted(s: Bytes): (q: Bytes)
    ensures |q| <= 200 && q <= DropSpaces(BeforeNul(s))
    ensures |DropSpaces(BeforeNul(s))| <= 200 ==> q == DropSpaces(BeforeNul(s))
  {
    var a := DropSpaces(BeforeNul(s));
    a[..Min(|a|, 200)]
  }

  /** int(s) for a byte string s: the literal before the first NUL must
      parse, and then there must be no NUL at all. */
  function IntOfStr(s: Bytes): (o: Outcome<PyVal>)
    ensures o.Returned? <==> ParseIntLiteral(BeforeNul(s)).Parsed? && '\0' !in s
    ensures o.Returned? ==> o.value == Int(ParseIntLiteral(BeforeNul(s)).value)
    ensures ParseIntLiteral(BeforeNul(s)).Invalid? ==>
      o == Raised(ValueError, InvalidLiteralMessage + StrRepr(Quoted(s)))
    ensures ParseIntLiteral(BeforeNul(s)).Parsed? && '\0' in s ==> o == Raised(ValueError, NullByteMessage)
  {
    var c := BeforeNul(s);
    match ParseIntLiteral(c)
    case Invalid =>
      Raised(ValueError, InvalidLiteralMessage + StrRepr(Quoted(s)))
    case Parsed(n) =>
      if |c| < |s| then Raised(ValueError, NullByteMessage) else Returned(Int(n))
  }

  /** int(v) */
  function IntOf(v: PyVal): (o: Outcome<PyVal>)
    ensures v.Int? ==> o == Returned(v)
    ensures v.Bool? ==> o == Returned(Int(if v.b then 1 else 0))
    ensures v.Str? ==> o == IntOfStr(v.s)
    ensures o.Returned? ==> o.value.Int?
    ensures o.Raised? ==> (o.kind == ValueError <==> v.Str?)
    ensures o.Raised? && o.kind == TypeError <==> !(v.Int? || v.Bool? || v.Str?)
  {
    match v
    case Int(i) => Returned(Int(i))
    case Bool(b) => Returned(Int(if b then 1 else 0))
    case Str(s) => IntOfStr(s)
    case _ => Raised(TypeError, IntArgumentMessage + TypeName(v) + "'")
  }

  lemma {:induction false} BeforeNulWithoutNul(s: Bytes)
    requires '\0' !in s
    ensures BeforeNul(s) == s
    decreases |s|
  {
    if s != [] {
      assert '\0' !in s[1..];
      BeforeNulWithoutNul(s[1..]);
    }
  }

  lemma {:induction false} BeforeNulAfter(pre: Bytes, t: Bytes)
    requires '\0' !in pre
    ensures BeforeNul(pre + t) == pre + BeforeNul(t)
    decreases |pre|
  {
    if pre != [] {
      var s := pre + t;
      assert BeforeNul(s) == [pre[0]] + BeforeNul(pre[1..] + t) by {
        assert s[0] == pre[0] && pre[0] != '\0';
        assert s[1..] == pre[1..] + t;
      }
      BeforeNulAfter(pre[1..], t);
      assert [pre[0]] + (pre[1..] + BeforeNul(t)) == pre + BeforeNul(t) by {
        assert pre == [pre[0]] + pre[1..];
      }
    } else {
      assert pre + t == t;
    }
  }

  /** Leading blanks are not part of the quoted literal: int('  x') quotes
      'x', as int('x') does. */
  lemma QuotedWithoutBlanks(pre: Bytes, t: Bytes)
    requires AllSpaces(pre) && '\0' !in pre
    requires t != [] && !IsSpace(t[0])
    ensures Quoted(pre + t) == Quoted(t)
  {
    BeforeNulAfter(pre, t);
    var c := BeforeNul(t);
    assert c == [] || c[0] == t[0];
    DropSpacesPrefix(pre, c);
    DropSpacesPrefix([], c);
    assert [] + c == c;
  }

  /** int(repr(i)) == i */
  lemma IntOfDecimal(i: int)
    ensures IntOf(Str(Decimal(i))) == Returned(Int(i))
  {
    var t := Decimal(i);
    DecimalRoundTrip(i);
    NatDecimalDigits(if i < 0 then -i else i);
    assert i < 0 ==> t[1..] == NatDecimal(-i);
    assert '\0' !in t by {
      forall k | 0 <= k < |t| ensures t[k] != '\0' {
        if i < 0 && k > 0 { assert t[k] == t[1..][k - 1]; }
      }
    }
    BeforeNulWithoutNul(t);
    ParseIntLiteralDecimal(i);
  }
}
