/** Python 2 values as the Result type and the int() builtin see them:
    truthiness, type names, and repr() rendering, with the parsers that
    read a repr back. */
module PyValues {

  /** A Python 2 `str` is a byte string: every character is below 256. */
  type Byte = c: char | c as int < 256
  type Bytes = seq<Byte>

  /** The payloads the model works with. A dict keeps its entries in the
      order it renders them. */
  datatype PyVal =
    | None
    | Bool(b: bool)
    | Int(i: int)
    | Str(s: Bytes)
    | List(items: seq<PyVal>)
    | Tuple(items: seq<PyVal>)
    | Dict(entries: seq<(PyVal, PyVal)>)

  /** Outcome of a parser. */
  datatype Parse<T> = Parsed(value: T) | Invalid

  /** Python's bool(v): false for None, False, 0 and empty containers. */
  predicate Truthy(v: PyVal)
    ensures Truthy(v) ==> v != None
  {
    match v
    case None => false
    case Bool(b) => b
    case Int(i) => i != 0
    case Str(s) => s != []
    case List(xs) => xs != []
    case Tuple(xs) => xs != []
    case Dict(es) => es != []
  }

  /** type(v).__name__ */
  function TypeName(v: PyVal): Bytes {
    match v
    case None => "NoneType"
    case Bool(_) => "bool"
    case Int(_) => "int"
    case Str(_) => "str"
    case List(_) => "list"
    case Tuple(_) => "tuple"
    case Dict(_) => "dict"
  }

  /** A scalar: a value whose repr contains no other value's repr. */
  predicate IsAtom(v: PyVal) {
    v.None? || v.Bool? || v.Int? || v.Str?
  }

  // ---------------------------------------------------------------------
  // Decimal digits

  predicate IsDigit(c: Byte) { '0' <= c <= '9' }

  predicate AllDigits(t: Bytes) {
    forall k :: 0 <= k < |t| ==> IsDigit(t[k])
  }

  function DigitChar(d: nat): (c: Byte)
    requires d < 10
    ensures IsDigit(c) && c as int - '0' as int == d
  {
    (d + '0' as int) as char
  }

  /** The decimal digits of n, most significant first, without leading zeros. */
  function NatDecimal(n: nat): Bytes
    decreases n
  {
    if n < 10 then [DigitChar(n)] else NatDecimal(n / 10) + [DigitChar(n % 10)]
  }

  /** repr(i) and str(i) for an int. */
  function Decimal(i: int): Bytes {
    if i < 0 then "-" + NatDecimal(-i) else NatDecimal(i)
  }

  /** The number a string of decimal digits denotes. */
  function DigitsValue(t: Bytes): nat
    requires AllDigits(t)
    decreases |t|
  {
    if t == [] then 0
    else DigitsValue(t[..|t| - 1]) * 10 + (t[|t| - 1] as int - '0' as int)
  }

  lemma {:induction false} NatDecimalDigits(n: nat)
    ensures |NatDecimal(n)| >= 1 && AllDigits(NatDecimal(n))
    ensures DigitsValue(NatDecimal(n)) == n
    ensures NatDecimal(n)[0] != '0' || n == 0
    decreases n
  {
    if n >= 10 {
      NatDecimalDigits(n / 10);
      var t := NatDecimal(n);
      assert t[..|t| - 1] == NatDecimal(n / 10);
    }
  }

  /** Reads back exactly what Decimal writes: an optional '-' and digits. */
  function ReadDecimal(t: Bytes): Parse<int> {
    if |t| >= 2 && t[0] == '-' && AllDigits(t[1..]) then Parsed(-(DigitsValue(t[1..]) as int))
    else if |t| >= 1 && AllDigits(t) then Parsed(DigitsValue(t))
    else Invalid
  }

  lemma DecimalRoundTrip(i: int)
    ensures |Decimal(i)| >= 1
    ensures Decimal(i)[0] == '-' || IsDigit(Decimal(i)[0])
    ensures ReadDecimal(Decimal(i)) == Parsed(i)
  {
    if i < 0 {
      NatDecimalDigits(-i);
      assert Decimal(i)[1..] == NatDecimal(-i);
    } else {
      NatDecimalDigits(i);
    }
  }

  // ---------------------------------------------------------------------
  // repr() of a byte string, as CPython 2.7 renders it

  function HexDigit(d: nat): (c: Byte)
    requires d < 16
  {
    "0123456789abcdef"[d]
  }

  predicate IsHexDigit(c: Byte) {
    ('0' <= c <= '9') || ('a' <= c <= 'f')
  }

  function HexValue(c: Byte): (d: nat)
    requires IsHexDigit(c)
    ensures d < 16
  {
    if c <= '9' then c as int - '0' as int else c as int - 'a' as int + 10
  }

  lemma HexDigitValue(d: nat)
    requires d < 16
    ensures IsHexDigit(HexDigit(d)) && HexValue(HexDigit(d)) == d
  {
  }

  /** The quote repr() picks: a double quote only when the string holds a
      single quote and no double quote. */
  function QuoteFor(s: Bytes): (q: Byte)
    ensures q == '\'' || q == '"'
    ensures q == '"' <==> '\'' in s && '"' !in s
  {
    if '\'' in s && '"' !in s then '"' else '\''
  }

  /** How repr() writes one byte between quotes q. */
  function EscapeByte(c: Byte, q: Byte): Bytes {
    if c == q || c == '\\' then ['\\', c]
    else if c == '\t' then "\\t"
    else if c == '\n' then "\\n"
    else if c == '\r' then "\\r"
    else if c < ' ' || c as int >= 0x7f then ['\\', 'x', HexDigit(c as int / 16), HexDigit(c as int % 16)]
    else [c]
  }

  function EscapeBody(s: Bytes, q: Byte): Bytes
    decreases |s|
  {
    if s == [] then [] else EscapeByte(s[0], q) + EscapeBody(s[1..], q)
  }

  predicate Printable(c: Byte) {
    ' ' <= c && c as int < 0x7f
  }

  /** repr() writes only printable ASCII between its quotes: control bytes
      and bytes from 0x7f up always come out escaped. */
  lemma {:induction false} EscapeBodyPrintable(s: Bytes, q: Byte)
    requires q == '\'' || q == '"'
    ensures forall k :: 0 <= k < |EscapeBody(s, q)| ==> Printable(EscapeBody(s, q)[k])
    decreases |s|
  {
    if s != [] {
      var e := EscapeByte(s[0], q);
      assert forall k :: 0 <= k < |e| ==> Printable(e[k]);
      EscapeBodyPrintable(s[1..], q);
    }
  }

  /** A printable byte other than the quote and the backslash is written as is. */
  predicate Plain(c: Byte, q: Byte) {
    Printable(c) && c != q && c != '\\'
  }

  lemma {:induction false} EscapePlain(s: Bytes, q: Byte)
    requires forall k :: 0 <= k < |s| ==> Plain(s[k], q)
    ensures EscapeBody(s, q) == s
    decreases |s|
  {
    if s != [] {
      EscapePlain(s[1..], q);
      assert s == [s[0]] + s[1..];
    }
  }

  /** repr(s) for a byte string s. */
  function StrRepr(s: Bytes): (r: Bytes)
    ensures |r| >= 2 && r[0] == r[|r| - 1] == QuoteFor(s)
  {
    var q := QuoteFor(s);
    [q] + EscapeBody(s, q) + [q]
  }

  /** Undoes the escapes that repr() writes between the quotes. */
  function Unescape(t: Bytes): Bytes
    decreases |t|
  {
    if |t| == 0 then []
    else if t[0] == '\\' && |t| >= 2 then
      if t[1] == 't' then ['\t'] + Unescape(t[2..])
      else if t[1] == 'n' then ['\n'] + Unescape(t[2..])
      else if t[1] == 'r' then ['\r'] + Unescape(t[2..])
      else if t[1] == 'x' && |t| >= 4 && IsHexDigit(t[2]) && IsHexDigit(t[3]) then
        [(HexValue(t[2]) * 16 + HexValue(t[3])) as char] + Unescape(t[4..])
      else [t[1]] + Unescape(t[2..])
    else [t[0]] + Unescape(t[1..])
  }

  lemma UnescapeOneByte(c: Byte, q: Byte, rest: Bytes)
    requires q == '\'' || q == '"'
    ensures Unescape(EscapeByte(c, q) + rest) == [c] + Unescape(rest)
  {
    var t := EscapeByte(c, q) + rest;
    if c == q || c == '\\' {
      assert t[2..] == rest;
    } else if c == '\t' || c == '\n' || c == '\r' {
      assert t[2..] == rest;
    } else if c < ' ' || c as int >= 0x7f {
      HexDigitValue(c as int / 16);
      HexDigitValue(c as int % 16);
      assert t[4..] == rest;
    } else {
      assert t[1..] == rest;
    }
  }

  lemma {:induction false} EscapeRoundTrip(s: Bytes, q: Byte)
    requires q == '\'' || q == '"'
    ensures Unescape(EscapeBody(s, q)) == s
    decreases |s|
  {
    if s != [] {
      UnescapeOneByte(s[0], q, EscapeBody(s[1..], q));
      EscapeRoundTrip(s[1..], q);
    }
  }

  /** A string of plain printable characters is quoted with single quotes
      and written as is. */
  lemma StrReprPlain(s: Bytes)
    requires forall k :: 0 <= k < |s| ==> Plain(s[k], '\'')
    ensures StrRepr(s) == ['\''] + s + ['\'']
  {
    assert '\'' !in s;
    EscapePlain(s, '\'');
  }

  /** Reads a quoted string literal as repr() writes it. */
  function ReadStr(t: Bytes): Parse<Bytes> {
    if |t| >= 2 && (t[0] == '\'' || t[0] == '"') && t[|t| - 1] == t[0] then Parsed(Unescape(t[1..|t| - 1]))
    else Invalid
  }

  /** repr() of a string is a quoted literal that reads back as the string. */
  lemma StrReprRoundTrip(s: Bytes)
    ensures |StrRepr(s)| >= 2 && StrRepr(s)[0] == QuoteFor(s)
    ensures ReadStr(StrRepr(s)) == Parsed(s)
  {
    var q := QuoteFor(s);
    var t := StrRepr(s);
    assert t[1..|t| - 1] == EscapeBody(s, q);
    EscapeRoundTrip(s, q);
  }

  lemma StrReprInjective(a: Bytes, b: Bytes)
    requires StrRepr(a) == StrRepr(b)
    ensures a == b
  {
    StrReprRoundTrip(a);
    StrReprRoundTrip(b);
  }

  // ---------------------------------------------------------------------
  // repr() of any value

  /** ", ".join(parts) */
  function Join(parts: seq<Bytes>): Bytes
    decreases |parts|
  {
    if |parts| == 0 then []
    else if |parts| == 1 then parts[0]
    else parts[0] + ", " + Join(parts[1..])
  }

  /** repr(v) as Python 2 renders it; a one-element tuple keeps its comma. */
  function Repr(v: PyVal): (r: Bytes)
    ensures v.Str? ==> |r| >= 2 && (r[0] == '\'' || r[0] == '"')
    ensures v.List? ==> |r| >= 2 && r[0] == '[' && r[|r| - 1] == ']'
    ensures v.Tuple? ==> |r| >= 2 && r[0] == '(' && r[|r| - 1] == ')'
    ensures v.Dict? ==> |r| >= 2 && r[0] == '{' && r[|r| - 1] == '}'
    decreases v
  {
    match v
    case None => "None"
    case Bool(b) => if b then "True" else "False"
    case Int(i) => Decimal(i)
    case Str(s) => StrRepr(s)
    case List(xs) => "[" + Join(seq(|xs|, k requires 0 <= k < |xs| => Repr(xs[k]))) + "]"
    case Tuple(xs) =>
      if |xs| == 1 then "(" + Repr(xs[0]) + ",)"
      else "(" + Join(seq(|xs|, k requires 0 <= k < |xs| => Repr(xs[k]))) + ")"
    case Dict(es) =>
      "{" + Join(seq(|es|, k requires 0 <= k < |es| => Repr(es[k].0) + ": " + Repr(es[k].1))) + "}"
  }

  /** str(v), which '%s' formatting uses: a string is itself, anything else its repr. */
  function StrOf(v: PyVal): Bytes {
    if v.Str? then v.s else Repr(v)
  }

  /** Reads back the repr of a scalar. */
  function ReadAtom(t: Bytes): Parse<PyVal> {
    if t == "None" then Parsed(None)
    else if t == "True" then Parsed(Bool(true))
    else if t == "False" then Parsed(Bool(false))
    else if |t| >= 1 && (t[0] == '\'' || t[0] == '"') then
      match ReadStr(t)
      case Parsed(s) => Parsed(Str(s))
      case Invalid => Invalid
    else
      match ReadDecimal(t)
      case Parsed(i) => Parsed(Int(i))
      case Invalid => Invalid
  }

  /** The repr of a scalar determines it. */
  lemma AtomReprRoundTrip(v: PyVal)
    requires IsAtom(v)
    ensures ReadAtom(Repr(v)) == Parsed(v)
  {
    match v
    case None =>
    case Bool(b) =>
    case Int(i) =>
      DecimalRoundTrip(i);
      var t := Repr(v);
      assert t[0] != "None"[0] && t[0] != "True"[0] && t[0] != "False"[0];
    case Str(s) =>
      StrReprRoundTrip(s);
      var t := Repr(v);
      assert t[0] != "None"[0] && t[0] != "True"[0] && t[0] != "False"[0];
  }
}
