/** The parts of PHP's (and WordPress's) runtime semantics that the plugin's own
    code relies on: values and arrays, empty(), the (int) cast, is_numeric,
    FILTER_VALIDATE_BOOLEAN, decimal rendering of integers, ASCII case folding
    and trailingslashit. A PHP string is a Dafny `string` whose every char
    stands for one byte. */
module Php {

  datatype Option<+T> = None | Some(value: T)

  /** A PHP array key, as PHP stores it (integer-like strings already turned into ints). */
  datatype Key = IntKey(i: int) | StrKey(s: string)

  /** A PHP value. Arrays are ordered lists of entries; floats are exact reals,
      so NaN and the infinities are not values of this type. */
  datatype Value =
    | Null
    | Bool(b: bool)
    | Int(i: int)
    | Float(r: real)
    | Str(s: string)
    | Arr(items: seq<(Key, Value)>)
    | Obj(cls: string, props: seq<(Key, Value)>)

  const INT64_MAX: int := 0x7fff_ffff_ffff_ffff
  const INT64_MIN: int := -0x8000_0000_0000_0000

  /** PHP's empty(): null, false, 0, 0.0, "", "0" and the empty array. */
  predicate IsEmpty(v: Value)
  {
    match v
    case Null => true
    case Bool(b) => !b
    case Int(i) => i == 0
    case Float(r) => r == 0.0
    case Str(s) => s == "" || s == "0"
    case Arr(items) => items == []
    case Obj(_, _) => false
  }

  /** A string is empty in PHP's sense when it is "" or "0". */
  lemma EmptyStringCases(s: string)
    ensures IsEmpty(Str(s)) <==> |s| == 0 || (|s| == 1 && s[0] == '0')
  {
    if |s| == 1 && s[0] == '0' {
      assert s == "0";
    }
  }

  // ---------------------------------------------------------------------------
  // Characters

  predicate IsDigit(c: char) { '0' <= c <= '9' }

  predicate AllDigits(s: string) { forall i | 0 <= i < |s| :: IsDigit(s[i]) }

  /** PCRE's \w with PHP's default character tables: [A-Za-z0-9_]. */
  predicate IsWordChar(c: char) { 'a' <= c <= 'z' || 'A' <= c <= 'Z' || IsDigit(c) || c == '_' }

  predicate AllWordChars(s: string) { forall i | 0 <= i < |s| :: IsWordChar(s[i]) }

  /** The whitespace PHP skips around a numeric string: space, \t, \n, \r, \v, \f. */
  predicate IsNumericSpace(c: char)
  {
    c == ' ' || c == '\t' || c == '\n' || c == '\r' || c == '\U{0B}' || c == '\U{0C}'
  }

  /** strtolower on a byte: only A-Z change. */
  function AsciiLower(c: char): char
  {
    if 'A' <= c <= 'Z' then (c as int + 32) as char else c
  }

  function Lower(s: string): (r: string)
    ensures |r| == |s|
    ensures forall i | 0 <= i < |s| :: r[i] == AsciiLower(s[i])
  {
    seq(|s|, i requires 0 <= i < |s| => AsciiLower(s[i]))
  }

  /** Lower-casing commutes with taking a suffix. */
  lemma LowerDrop(s: string, n: nat)
    requires n <= |s|
    ensures Lower(s)[n..] == Lower(s[n..])
  {
  }

  predicate StartsWith(s: string, prefix: string) { prefix <= s }

  /** strpos($s, $needle) !== false. */
  predicate Contains(s: string, needle: string)
  {
    exists i | 0 <= i <= |s| - |needle| :: OccursAt(s, needle, i)
  }

  predicate OccursAt(s: string, needle: string, i: nat)
    requires i + |needle| <= |s|
  {
    s[i..i + |needle|] == needle
  }

  // ---------------------------------------------------------------------------
  // Decimal numbers

  function DigitChar(d: nat): (c: char)
    requires d < 10
    ensures IsDigit(c) && DigitValue(c) == d
  {
    ('0' as int + d) as char
  }

  function DigitValue(c: char): (d: nat)
    requires IsDigit(c)
    ensures d < 10
  {
    c as int - '0' as int
  }

  /** The value of a string of decimal digits (leading zeros allowed). */
  function DigitsValue(s: string): nat
    requires AllDigits(s)
  {
    if s == [] then 0 else 10 * DigitsValue(s[..|s| - 1]) + DigitValue(s[|s| - 1])
  }

  lemma TwoDigitsValue(s: string)
    requires |s| == 2 && AllDigits(s)
    ensures DigitsValue(s) == 10 * DigitValue(s[0]) + DigitValue(s[1])
  {
    var p := s[..1];
    assert p[0] == s[0] && IsDigit(p[0]);
    assert p[..0] == [];
    assert DigitsValue(p) == DigitValue(p[0]);
  }

  /** How PHP writes a non-negative integer: decimal digits, no sign, no leading zero. */
  function NatToString(n: nat): (r: string)
    ensures |r| > 0 && AllDigits(r)
    ensures DigitsValue(r) == n
    ensures r[0] == '0' ==> n == 0
  {
    if n < 10 then [DigitChar(n)]
    else
      var p := NatToString(n / 10);
      var r := p + [DigitChar(n % 10)];
      assert r[..|r| - 1] == p;
      r
  }

  /** How PHP writes an integer when a string is expected. */
  function IntToString(i: int): string
  {
    if i < 0 then "-" + NatToString(-i) else NatToString(i)
  }

  /** A three-digit number is written as its hundreds, tens and units digits. */
  lemma ThreeDigits(n: nat)
    requires 100 <= n <= 999
    ensures IntToString(n) == [DigitChar(n / 100), DigitChar(n / 10 % 10), DigitChar(n % 10)]
  {
    assert NatToString(n / 10) == NatToString(n / 100) + [DigitChar(n / 10 % 10)];
  }

  function Clamp64(x: int): (r: int)
    ensures INT64_MIN <= r <= INT64_MAX
    ensures INT64_MIN <= x <= INT64_MAX ==> r == x
  {
    if x > INT64_MAX then INT64_MAX else if x < INT64_MIN then INT64_MIN else x
  }

  /** The least magnitude of a decimal integer that zend_strtod rounds to an infinite
      double: 2^1024 - 2^970, halfway between DBL_MAX and 2^1024, where ties round up. */
  const DOUBLE_OVERFLOW: int := 179769313486231580793728971405303415079934132710037826936173778980444968292764750946649017977587207096330286416692887910946555547851940402630657488671505820681908902000708383676273854845817711531764475730270069855571366959622842914819860834936475292719074168444365510704342711559699508093042880177904174497792

  /** (int) of an integer written in decimal. Within 64 bits it is read exactly;
      beyond, it is read as a double, which zend_dval_to_lval_cap saturates while the
      double is finite and turns into 0 once it is infinite. */
  function DecimalCast(v: int): (r: int)
    ensures INT64_MIN <= r <= INT64_MAX
    ensures INT64_MIN <= v <= INT64_MAX ==> r == v
    ensures -DOUBLE_OVERFLOW < v < DOUBLE_OVERFLOW ==> r == Clamp64(v)
    ensures v <= -DOUBLE_OVERFLOW || DOUBLE_OVERFLOW <= v ==> r == 0
  {
    if v <= -DOUBLE_OVERFLOW || DOUBLE_OVERFLOW <= v then 0 else Clamp64(v)
  }

  // ---------------------------------------------------------------------------
  // Scanning helpers

  function SkipSpaces(s: string): (r: string)
    ensures |r| <= |s| && r == s[|s| - |r|..]
    ensures r == [] || !IsNumericSpace(r[0])
  {
    if s != [] && IsNumericSpace(s[0]) then SkipSpaces(s[1..]) else s
  }

  predicate AllSpaces(s: string) { forall i | 0 <= i < |s| :: IsNumericSpace(s[i]) }

  /** An optional leading sign: whether it is '-', and what follows it. */
  function SplitSign(s: string): (bool, string)
  {
    if s != [] && (s[0] == '-' || s[0] == '+') then (s[0] == '-', s[1..]) else (false, s)
  }

  /** The longest prefix of decimal digits. */
  function LeadingDigits(s: string): (d: string)
    ensures d <= s && AllDigits(d)
    ensures |d| == |s| || !IsDigit(s[|d|])
  {
    if s != [] && IsDigit(s[0]) then [s[0]] + LeadingDigits(s[1..]) else []
  }

  /** A digit string is its own longest digit prefix, whatever non-digit follows. */
  lemma {:induction false} LeadingDigitsOf(d: string, tail: string)
    requires AllDigits(d)
    requires tail == [] || !IsDigit(tail[0])
    ensures LeadingDigits(d + tail) == d
  {
    if d != [] {
      assert (d + tail)[1..] == d[1..] + tail;
      LeadingDigitsOf(d[1..], tail);
    } else {
      assert d + tail == tail;
    }
  }

  // ---------------------------------------------------------------------------
  // The (int) cast of a string and is_numeric

  /** After the digits of a leading number: a '.' or an exponent makes it a float literal. */
  predicate FloatFormAfter(d: string, rest: string)
  {
    || (|rest| > 0 && rest[0] == '.' && (|d| > 0 || (|rest| > 1 && IsDigit(rest[1]))))
    || (|d| > 0 && |rest| > 0 && (rest[0] == 'e' || rest[0] == 'E') && ExponentDigitFollows(rest[1..]))
  }

  predicate ExponentDigitFollows(s: string)
  {
    (|s| > 0 && IsDigit(s[0])) || (|s| > 1 && (s[0] == '+' || s[0] == '-') && IsDigit(s[1]))
  }

  /** PHP's (int) on a string: leading whitespace, an optional sign, and the longest
      run of digits, read as DecimalCast reads it: exactly within 64 bits, saturated
      beyond, and 0 once the run overflows a double. No leading number gives 0. A
      leading number written as a float ("1.5", "2e3") is converted through a
      double, which `floatCast` stands for. */
  function IntCast(s: string, floatCast: string -> int): int
  {
    var (neg, u) := SplitSign(SkipSpaces(s));
    var d := LeadingDigits(u);
    if FloatFormAfter(d, u[|d|..]) then floatCast(s)
    else if d == [] then 0
    else
      var n: int := DigitsValue(d);
      DecimalCast(if neg then -n else n)
  }

  /** A digit string, possibly followed by a newline, casts to its value, saturated
      at the 64-bit maximum, or to 0 when its value overflows a double. */
  lemma IntCastDigits(d: string, tail: string, floatCast: string -> int)
    requires |d| > 0 && AllDigits(d)
    requires tail == [] || tail == "\n"
    ensures IntCast(d + tail, floatCast) == DecimalCast(DigitsValue(d))
    ensures DigitsValue(d) < DOUBLE_OVERFLOW ==> IntCast(d + tail, floatCast) == Clamp64(DigitsValue(d))
    ensures DigitsValue(d) >= DOUBLE_OVERFLOW ==> IntCast(d + tail, floatCast) == 0
  {
    DigitsCast(d, tail, floatCast);
    var v := DigitsValue(d);
    assert IntCast(d + tail, floatCast) == DecimalCast(v);
  }

  lemma DigitsCast(d: string, tail: string, floatCast: string -> int)
    requires |d| > 0 && AllDigits(d)
    requires tail == [] || tail == "\n"
    ensures IntCast(d + tail, floatCast) == DecimalCast(DigitsValue(d))
  {
    var s := d + tail;
    assert s[0] == d[0];
    StartsWithDigit(s);
    LeadingDigitsOf(d, tail);
    assert s[|d|..] == tail;
    NewlineNotFloat(d, tail);
    IntCastPlainNumber(s, d, floatCast);
  }

  /** A digit string within the 64-bit range casts to its value. */
  lemma IntCastInRange(d: string, floatCast: string -> int)
    requires |d| > 0 && AllDigits(d) && DigitsValue(d) <= INT64_MAX
    ensures IntCast(d, floatCast) == DigitsValue(d)
  {
    assert d + [] == d;
    IntCastDigits(d, [], floatCast);
  }

  /** A digit string of positive value casts to a positive integer exactly when its
      value does not overflow a double. */
  lemma IntCastPositive(d: string, floatCast: string -> int)
    requires |d| > 0 && AllDigits(d) && DigitsValue(d) > 0
    ensures IntCast(d, floatCast) > 0 <==> DigitsValue(d) < DOUBLE_OVERFLOW
  {
    assert d + [] == d;
    IntCastDigits(d, [], floatCast);
    var v := DigitsValue(d);
    assert Clamp64(v) == if v > INT64_MAX then INT64_MAX else v;
  }

  /** A '-' and a digit string cast to the negated value, saturated at the 64-bit
      minimum, or to 0 when the value overflows a double. */
  lemma IntCastNegativeDigits(d: string, floatCast: string -> int)
    requires |d| > 0 && AllDigits(d)
    ensures IntCast("-" + d, floatCast) == DecimalCast(-(DigitsValue(d) as int))
    ensures DigitsValue(d) < DOUBLE_OVERFLOW ==> IntCast("-" + d, floatCast) == Clamp64(-(DigitsValue(d) as int))
    ensures DigitsValue(d) >= DOUBLE_OVERFLOW ==> IntCast("-" + d, floatCast) == 0
  {
    var s := "-" + d;
    assert SplitSign(SkipSpaces(s)) == (true, d) by {
      assert SkipSpaces(s) == s;
      assert s[1..] == d;
    }
    LeadingDigitsOf(d, []);
    assert d + [] == d;
    NewlineNotFloat(d, []);
    IntCastNegativeNumber(s, d, floatCast);
  }

  lemma IntCastNegativeNumber(s: string, d: string, floatCast: string -> int)
    requires SplitSign(SkipSpaces(s)) == (true, d)
    requires LeadingDigits(d) == d && |d| > 0
    requires !FloatFormAfter(d, [])
    ensures IntCast(s, floatCast) == DecimalCast(-(DigitsValue(d) as int))
  {
    assert d[|d|..] == [];
  }

  lemma StartsWithDigit(s: string)
    requires s != [] && IsDigit(s[0])
    ensures SplitSign(SkipSpaces(s)) == (false, s)
  {
    assert !IsNumericSpace(s[0]);
    assert SkipSpaces(s) == s;
    assert s[0] != '-' && s[0] != '+';
  }

  lemma NewlineNotFloat(d: string, tail: string)
    requires tail == [] || tail == "\n"
    ensures !FloatFormAfter(d, tail)
  {
  }

  lemma IntCastPlainNumber(s: string, d: string, floatCast: string -> int)
    requires SplitSign(SkipSpaces(s)) == (false, s)
    requires LeadingDigits(s) == d && |d| > 0
    requires !FloatFormAfter(d, s[|d|..])
    ensures IntCast(s, floatCast) == DecimalCast(DigitsValue(d))
  {
  }

  /** A string that does not start (after whitespace and a sign) with a digit or
      with '.' and a digit casts to 0. */
  lemma IntCastNoNumber(s: string, floatCast: string -> int)
    requires var u := SplitSign(SkipSpaces(s)).1;
             (u == [] || !IsDigit(u[0])) && !(|u| > 1 && u[0] == '.' && IsDigit(u[1]))
    ensures IntCast(s, floatCast) == 0
  {
  }

  /** is_numeric on a string, following PHP 8's numeric-string grammar:
      WS* [+-]? (D+ ('.' D*)? | '.' D+) ([eE] [+-]? D+)? WS*. */
  predicate IsNumericString(s: string)
  {
    var u := SplitSign(SkipSpaces(s)).1;
    var d1 := LeadingDigits(u);
    var r1 := u[|d1|..];
    var dot := |r1| > 0 && r1[0] == '.';
    var d2 := if dot then LeadingDigits(r1[1..]) else [];
    var r2 := if dot then r1[1 + |d2|..] else r1;
    (|d1| > 0 || |d2| > 0) && AllSpaces(AfterExponent(r2))
  }

  /** What follows an optional exponent part [eE][+-]?D+. */
  function AfterExponent(r: string): (t: string)
    ensures |t| <= |r|
  {
    if |r| > 0 && (r[0] == 'e' || r[0] == 'E') then
      var u := SplitSign(r[1..]).1;
      var d := LeadingDigits(u);
      if |d| > 0 then u[|d|..] else r
    else r
  }

  /** is_numeric on any value: ints and floats always, strings by the grammar. */
  predicate IsNumeric(v: Value)
  {
    v.Int? || v.Float? || (v.Str? && IsNumericString(v.s))
  }

  /** Every non-empty digit string is numeric. */
  lemma {:induction false} DigitsAreNumeric(d: string)
    requires |d| > 0 && AllDigits(d)
    ensures IsNumericString(d)
  {
    assert SkipSpaces(d) == d;
    assert SplitSign(d) == (false, d);
    LeadingDigitsOf(d, []);
    assert d + [] == d;
  }

  // ---------------------------------------------------------------------------
  // filter_var($v, FILTER_VALIDATE_BOOLEAN)

  /** The characters FILTER_VALIDATE_BOOLEAN trims: space, \t, \r, \v, \n. */
  predicate IsFilterSpace(c: char) { c == ' ' || c == '\t' || c == '\r' || c == '\U{0B}' || c == '\n' }

  function TrimFilterSpaces(s: string): (r: string)
    ensures |r| <= |s|
    ensures r == [] || (!IsFilterSpace(r[0]) && !IsFilterSpace(r[|r| - 1]))
    decreases |s|
  {
    if s == [] then s
    else if IsFilterSpace(s[0]) then TrimFilterSpaces(s[1..])
    else if IsFilterSpace(s[|s| - 1]) then TrimFilterSpaces(s[..|s| - 1])
    else s
  }

  /** The spellings FILTER_VALIDATE_BOOLEAN reads as true, case-insensitively. */
  predicate IsTrueSpelling(s: string)
  {
    Lower(TrimFilterSpaces(s)) in {"1", "true", "on", "yes"}
  }

  /** filter_var($v, FILTER_VALIDATE_BOOLEAN) without FILTER_NULL_ON_FAILURE:
      the value is turned into a string and read as a true spelling; anything
      else, including "no" and unparsable text, is false. */
  function ValidateBoolean(v: Value): bool
  {
    match v
    case Bool(b) => b                  // true is "1", false is ""
    case Int(i) => i == 1              // only "1"
    case Float(r) => r == 1.0          // only 1.0 is written "1"
    case Str(s) => IsTrueSpelling(s)
    case _ => false
  }

  lemma TrueSpellings()
    ensures ValidateBoolean(Str("YES")) && ValidateBoolean(Str(" On\n")) && ValidateBoolean(Str("1"))
    ensures !ValidateBoolean(Str("no")) && !ValidateBoolean(Str("2")) && !ValidateBoolean(Str(""))
  {
    SpelledYes();
    SpelledOn();
    SpelledOne();
    SpelledNo();
    SpelledTwo();
  }

  lemma SpelledYes()
    ensures ValidateBoolean(Str("YES"))
  {
    assert TrimFilterSpaces("YES") == "YES";
    assert Lower("YES") == "yes";
  }

  lemma SpelledOn()
    ensures ValidateBoolean(Str(" On\n"))
  {
    assert TrimFilterSpaces(" On\n") == "On" by {
      assert TrimFilterSpaces(" On\n") == TrimFilterSpaces("On\n");
      assert TrimFilterSpaces("On\n") == TrimFilterSpaces("On");
    }
    assert Lower("On") == "on";
  }

  lemma SpelledOne()
    ensures ValidateBoolean(Str("1"))
  {
    assert TrimFilterSpaces("1") == "1";
    assert Lower("1") == "1";
  }

  lemma SpelledNo()
    ensures !ValidateBoolean(Str("no"))
  {
    assert TrimFilterSpaces("no") == "no";
    assert Lower("no") == "no";
  }

  lemma SpelledTwo()
    ensures !ValidateBoolean(Str("2"))
  {
    assert TrimFilterSpaces("2") == "2";
    assert Lower("2") == "2";
  }

  // ---------------------------------------------------------------------------
  // Arrays

  function KeyValue(k: Key): Value
  {
    match k
    case IntKey(i) => Int(i)
    case StrKey(s) => Str(s)
  }

  predicate HasKey(a: seq<(Key, Value)>, k: Key) { exists i | 0 <= i < |a| :: a[i].0 == k }

  predicate DistinctKeys(a: seq<(Key, Value)>)
  {
    forall i, j | 0 <= i < j < |a| :: a[i].0 != a[j].0
  }

  /** $a[$k], or None when the key is absent. */
  function Lookup(a: seq<(Key, Value)>, k: Key): (r: Option<Value>)
    ensures r.None? <==> !HasKey(a, k)
  {
    if a == [] then None
    else if a[0].0 == k then Some(a[0].1)
    else
      var r := Lookup(a[1..], k);
      assert forall i | 1 <= i < |a| :: a[i] == a[1..][i - 1];
      r
  }

  lemma HasKeyCons(a: seq<(Key, Value)>, k: Key)
    requires a != []
    ensures HasKey(a, k) <==> a[0].0 == k || HasKey(a[1..], k)
  {
    if HasKey(a[1..], k) {
      var i :| 0 <= i < |a[1..]| && a[1..][i].0 == k;
      assert a[i + 1].0 == k;
    }
    if HasKey(a, k) && a[0].0 != k {
      var i :| 0 <= i < |a| && a[i].0 == k;
      assert a[1..][i - 1].0 == k;
    }
  }

  /** $a[$k] = $v: overwrites the entry in place, or appends one at the end. */
  function Store(a: seq<(Key, Value)>, k: Key, v: Value): (r: seq<(Key, Value)>)
    ensures Lookup(r, k) == Some(v)
    ensures forall k' | k' != k :: Lookup(r, k') == Lookup(a, k')
    ensures HasKey(a, k) ==> |r| == |a|
    ensures !HasKey(a, k) ==> r == a + [(k, v)]
  {
    if a == [] then [(k, v)]
    else if a[0].0 == k then [(k, v)] + a[1..]
    else
      HasKeyCons(a, k);
      var r := [a[0]] + Store(a[1..], k, v);
      assert r[1..] == Store(a[1..], k, v);
      r
  }

  /** Storing twice under one key keeps only the second value. */
  lemma {:induction false} StoreTwice(a: seq<(Key, Value)>, k: Key, x: Value, y: Value)
    ensures Store(Store(a, k, x), k, y) == Store(a, k, y)
  {
    if a != [] && a[0].0 != k {
      StoreTwice(a[1..], k, x, y);
      var s := Store(a, k, x);
      assert s == [a[0]] + Store(a[1..], k, x);
      assert s[1..] == Store(a[1..], k, x);
    }
  }

  /** Looking up in an array with one more entry at the end. */
  lemma {:induction false} LookupSnoc(a: seq<(Key, Value)>, e: (Key, Value), k: Key)
    ensures Lookup(a + [e], k) == if HasKey(a, k) then Lookup(a, k) else if e.0 == k then Some(e.1) else None
  {
    if a != [] {
      HasKeyCons(a, k);
      assert (a + [e])[1..] == a[1..] + [e];
      LookupSnoc(a[1..], e, k);
    } else {
      assert a + [e] == [e];
    }
  }

  /** Storing keeps the keys distinct. */
  lemma {:induction false} StoreDistinct(a: seq<(Key, Value)>, k: Key, v: Value)
    requires DistinctKeys(a)
    ensures DistinctKeys(Store(a, k, v))
  {
    if a != [] && a[0].0 != k {
      var t := Store(a[1..], k, v);
      var r := Store(a, k, v);
      assert r == [a[0]] + t;
      assert DistinctKeys(a[1..]) by {
        forall i, j | 0 <= i < j < |a[1..]| ensures a[1..][i].0 != a[1..][j].0 {
          assert a[1..][i] == a[i + 1] && a[1..][j] == a[j + 1];
        }
      }
      StoreDistinct(a[1..], k, v);
      assert !HasKey(a[1..], a[0].0) by {
        HasKeyCons(a, a[0].0);
      }
      assert Lookup(t, a[0].0) == Lookup(a[1..], a[0].0);
      assert !HasKey(t, a[0].0);
      forall j | 0 < j < |r| ensures r[0].0 != r[j].0 {
        assert r[j] == t[j - 1];
      }
    } else if a != [] {
      var r := Store(a, k, v);
      forall i, j | 0 <= i < j < |r| ensures r[i].0 != r[j].0 {
        assert r[i].0 == a[i].0 && r[j].0 == a[j].0;
      }
    }
  }

  /** in_array($k, $list, true): some value of the list is identical to the key. */
  predicate InArrayStrict(k: Key, list: seq<(Key, Value)>)
  {
    exists i | 0 <= i < |list| :: list[i].1 == KeyValue(k)
  }

  /** The (array) cast: null gives [], an array itself, an object its properties,
      and any other value a one-entry list. */
  function ToArray(v: Value): seq<(Key, Value)>
  {
    match v
    case Null => []
    case Arr(items) => items
    case Obj(_, props) => props
    case _ => [(IntKey(0), v)]
  }

  // ---------------------------------------------------------------------------
  // WordPress string helpers

  /** untrailingslashit: rtrim($s, '/\\'). */
  function Untrailingslashit(s: string): (r: string)
    ensures r <= s
    ensures r == [] || (r[|r| - 1] != '/' && r[|r| - 1] != '\\')
    ensures forall i | |r| <= i < |s| :: s[i] == '/' || s[i] == '\\'
  {
    if s != [] && (s[|s| - 1] == '/' || s[|s| - 1] == '\\') then Untrailingslashit(s[..|s| - 1]) else s
  }

  /** trailingslashit: exactly one '/' at the end, replacing any trailing '/' and '\'. */
  function Trailingslashit(s: string): (r: string)
    ensures |r| > 0 && r[|r| - 1] == '/'
  {
    Untrailingslashit(s) + "/"
  }

  /** A string ending in exactly one '/' after a character that is neither '/' nor
      '\' is left as it is. */
  lemma TrailingslashitKeeps(s: string)
    requires |s| >= 2 && s[|s| - 1] == '/' && s[|s| - 2] != '/' && s[|s| - 2] != '\\'
    ensures Trailingslashit(s) == s
  {
    assert Untrailingslashit(s[..|s| - 1]) == s[..|s| - 1];
    assert s[..|s| - 1] + "/" == s;
  }
}
