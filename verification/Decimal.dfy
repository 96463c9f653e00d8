/** Decimal text: `std::to_string`, `std::stoi`, and the integer literals of a SQL statement. */
module Decimal {
  import opened Errors

  const INT_MAX := 0x7FFF_FFFF
  const INT_MIN := -0x8000_0000

  predicate IsInt32(v: int) {
    INT_MIN <= v <= INT_MAX
  }

  /** The value a 32-bit two's complement register holds for `v`. */
  function Wrap32(v: int): (w: int)
    ensures IsInt32(w) && (w - v) % 0x1_0000_0000 == 0
    ensures IsInt32(v) ==> w == v
  {
    (v - INT_MIN) % 0x1_0000_0000 + INT_MIN
  }

  predicate IsDigit(c: char) {
    '0' <= c <= '9'
  }

  predicate AllDigits(s: string) {
    forall i :: 0 <= i < |s| ==> IsDigit(s[i])
  }

  function Digit(d: nat): char
    requires d < 10
  {
    (d + 48) as char
  }

  function Digits(n: nat): string {
    if n < 10 then [Digit(n)] else Digits(n / 10) + [Digit(n % 10)]
  }

  /** `std::to_string` of an integer, and the text SQLite gives for one. */
  function ToString(n: int): string {
    if n < 0 then "-" + Digits(-n) else Digits(n)
  }

  function Value(s: string): nat
    requires AllDigits(s)
  {
    if s == "" then 0 else 10 * Value(s[..|s| - 1]) + (s[|s| - 1] as int - 48)
  }

  function SkipSpaces(s: string): string {
    if s != "" && s[0] in " \t\n\U{b}\U{c}\r" then SkipSpaces(s[1..]) else s
  }

  function DigitPrefix(s: string): (p: string)
    ensures AllDigits(p)
  {
    if s != "" && IsDigit(s[0]) then [s[0]] + DigitPrefix(s[1..]) else ""
  }

  /** `std::stoi` in base 10: leading spaces, an optional sign, then as many digits as there are; the rest is ignored. */
  function Stoi(s: string): Result<int> {
    var t := SkipSpaces(s);
    var signed := t != "" && t[0] in "+-";
    var digits := DigitPrefix(if signed then t[1..] else t);
    if digits == "" then Err(StdException)
    else
      var v: int := if signed && t[0] == '-' then 0 - Value(digits) else Value(digits);
      if IsInt32(v) then Ok(v) else Err(StdException)
  }

  /** The value of an integer literal with an optional minus sign; any other text is no literal. */
  function SqlInteger(s: string): Option<int> {
    if s != "" && AllDigits(s) then Some(Value(s))
    else if |s| > 1 && s[0] == '-' && AllDigits(s[1..]) then Some(0 - Value(s[1..]))
    else None
  }

  /** A literal that SQL stores and compares as an integer: one of 64 bits. */
  predicate Literal(s: string) {
    var v := SqlInteger(s);
    v.Some? && -0x8000_0000_0000_0000 <= v.value < 0x8000_0000_0000_0000
  }

  /** The number a literal stands for, and 0, which is no group's code, for any other text. */
  function Number(s: string): int {
    var v := SqlInteger(s);
    if v.Some? then v.value else 0
  }

  lemma {:induction false} ValueOfDigits(n: nat)
    ensures Digits(n) != "" && AllDigits(Digits(n)) && Value(Digits(n)) == n
  {
    if n >= 10 {
      ValueOfDigits(n / 10);
      var s := Digits(n);
      assert s[..|s| - 1] == Digits(n / 10);
    }
  }

  lemma {:induction false} DigitPrefixOfDigits(s: string)
    requires AllDigits(s)
    ensures DigitPrefix(s) == s
  {
    if s != "" {
      assert AllDigits(s[1..]);
      DigitPrefixOfDigits(s[1..]);
      assert [s[0]] + s[1..] == s;
    }
  }

  /** On a text of digits only, `stoi` is the value of the digits when there are some and the value fits. */
  lemma StoiOfDigits(s: string)
    requires AllDigits(s)
    ensures Stoi(s) == if s != "" && IsInt32(Value(s)) then Ok(Value(s)) else Err(StdException)
  {
    DigitPrefixOfDigits(s);
  }

  /** Reading back a printed integer gives the integer: always in SQL, within 32 bits for `stoi`. */
  lemma ReadsBack(n: int)
    ensures SqlInteger(ToString(n)) == Some(n)
    ensures Stoi(ToString(n)) == if IsInt32(n) then Ok(n) else Err(StdException)
  {
    var m := if n < 0 then -n else n;
    ValueOfDigits(m);
    var d := Digits(m);
    DigitPrefixOfDigits(d);
    if n < 0 {
      var t := "-" + d;
      assert t[1..] == d && !IsDigit(t[0]);
    }
  }

  /** The characters of a printed integer: digits, after a minus sign when it is negative. */
  lemma ToStringCharacters(n: int)
    ensures |ToString(n)| > 0
    ensures forall c | c in ToString(n) :: IsDigit(c) || c == '-'
    ensures n >= 0 ==> AllDigits(ToString(n))
    ensures ToString(n)[0] == '-' <==> n < 0
    ensures AllDigits(ToString(n)[1..])
  {
    ValueOfDigits(if n < 0 then -n else n);
  }
  predicate IsSpace(c: char) {
    c == ' ' || c == '\t' || c == '\n' || c == '\U{b}' || c == '\U{c}' || c == '\r'
  }

  /**
   `stoi` of any text, cut into its leading spaces, a sign, all digits that follow, and a rest: the rest does not matter,
   and there is no value without a digit or beyond 32 bits.
   */
  lemma {:induction false} StoiReads(spaces: string, sign: string, digits: string, rest: string)
    requires forall k :: 0 <= k < |spaces| ==> IsSpace(spaces[k])
    requires sign in ["", "+", "-"] && AllDigits(digits)
    requires rest == "" || !IsDigit(rest[0])
    requires sign + digits == "" && rest != "" ==> !IsSpace(rest[0]) && rest[0] != '+' && rest[0] != '-'
    ensures var v := if sign == "-" then 0 - Value(digits) else Value(digits);
            Stoi(spaces + sign + digits + rest) ==
            if digits != "" && -2147483648 <= v <= 2147483647 then Ok(v) else Err(StdException)
  {
    var t := sign + digits + rest;
    assert spaces + sign + digits + rest == spaces + t;
    SpacesSkipped(spaces, t);
    var signed := t != "" && t[0] in "+-";
    if sign == "" {
      assert t == digits + rest;
      assert digits != "" ==> IsDigit(t[0]);
    } else {
      assert t[0] == sign[0] && t[1..] == digits + rest;
    }
    DigitsTaken(digits, rest);
  }

  lemma {:induction false} SpacesSkipped(spaces: string, t: string)
    requires forall k :: 0 <= k < |spaces| ==> IsSpace(spaces[k])
    requires t == "" || !IsSpace(t[0])
    ensures SkipSpaces(spaces + t) == t
  {
    if spaces == "" {
      assert spaces + t == t;
    } else {
      assert (spaces + t)[1..] == spaces[1..] + t;
      SpacesSkipped(spaces[1..], t);
    }
  }

  lemma {:induction false} DigitsTaken(digits: string, rest: string)
    requires AllDigits(digits) && (rest == "" || !IsDigit(rest[0]))
    ensures DigitPrefix(digits + rest) == digits
  {
    if digits == "" {
      assert digits + rest == rest;
    } else {
      assert (digits + rest)[1..] == digits[1..] + rest;
      DigitsTaken(digits[1..], rest);
      assert [digits[0]] + digits[1..] == digits;
    }
  }

  /** Texts that are no integer literals and have a value for `stoi`: "5 apples", "+5". */
  lemma StoiIgnoresTheRest(digits: string, rest: string)
    requires AllDigits(digits) && digits != "" && Value(digits) <= 2147483647
    requires rest == "" || !IsDigit(rest[0])
    ensures Stoi(digits + rest) == Ok(Value(digits))
  {
    var none := "";
    StoiReads(none, none, digits, rest);
    assert none + none + digits + rest == digits + rest;
  }

  lemma StoiIgnoresThePlus(digits: string, rest: string)
    requires AllDigits(digits) && digits != "" && Value(digits) <= 2147483647
    requires rest == "" || !IsDigit(rest[0])
    ensures Stoi("+" + digits + rest) == Ok(Value(digits))
  {
    var none, plus := "", "+";
    StoiReads(none, plus, digits, rest);
    assert none + plus + digits + rest == plus + digits + rest;
  }

  lemma NoLiterals(digits: string, rest: string)
    ensures rest != "" && !IsDigit(rest[0]) && digits != "" && AllDigits(digits) ==> SqlInteger(digits + rest) == None
    ensures SqlInteger("+" + digits + rest) == None
  {
    var t, p := digits + rest, "+" + digits + rest;
    assert !IsDigit(p[0]) && p[0] != '-';
    if rest != "" && !IsDigit(rest[0]) && digits != "" && AllDigits(digits) {
      assert t[|digits|] == rest[0] && IsDigit(t[0]);
    }
  }
}
