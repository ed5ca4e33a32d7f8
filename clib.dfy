/** The behaviour of the C and C++ library calls the chat screen relies on:
    std::string::find and rfind (npos read back into an int as -1),
    c_str() (a C string ends at the first NUL byte), atoi, and the narrowing
    of an int to a char. Every Dafny char of a string stands for one byte
    of a std::string. */
module CLib {

  /** The byte that ends a C string. */
  const NUL: char := 0 as char

  /** std::string::find(c, from): the first index >= from holding c, or -1
      when there is none (npos stored in an int). */
  function Find(s: string, c: char, from: nat): (r: int)
    ensures r == -1 || from <= r < |s|
    ensures r == -1 ==> forall j :: from <= j < |s| ==> s[j] != c
    ensures r != -1 ==> s[r] == c && forall j :: from <= j < r ==> s[j] != c
    decreases |s| - from
  {
    if from >= |s| then -1
    else if s[from] == c then from
    else Find(s, c, from + 1)
  }

  /** Find is determined by the first occurrence. */
  lemma FindFirst(s: string, c: char, from: nat, at: nat)
    requires from <= at < |s| && s[at] == c
    requires forall j :: from <= j < at ==> s[j] != c
    ensures Find(s, c, from) == at
  {
  }

  /** std::string::rfind(c): the last index holding c, or -1. */
  function RFind(s: string, c: char): (r: int)
    ensures -1 <= r < |s|
    ensures r == -1 ==> forall j :: 0 <= j < |s| ==> s[j] != c
    ensures r != -1 ==> s[r] == c && forall j :: r < j < |s| ==> s[j] != c
  {
    if s == [] then -1
    else if s[|s| - 1] == c then |s| - 1
    else RFind(s[..|s| - 1], c)
  }

  /** The C string seen through c_str(): everything before the first NUL. */
  function CStr(s: string): (r: string)
    ensures r <= s
    ensures NUL !in r
    ensures |r| < |s| ==> s[|r|] == NUL
  {
    if s == [] || s[0] == NUL then [] else [s[0]] + CStr(s[1..])
  }

  /** A string without a NUL is its own C string. */
  lemma {:induction false} CStrNoNul(s: string)
    requires NUL !in s
    ensures CStr(s) == s
  {
    if s != [] {
      assert NUL !in s[1..];
      CStrNoNul(s[1..]);
    }
  }

  /** isspace in the C locale: space, tab, newline, vertical tab, form feed,
      carriage return. */
  predicate IsSpace(c: char) {
    c == ' ' || 9 <= c as int <= 13
  }

  predicate IsDigit(c: char) {
    '0' <= c <= '9'
  }

  function DigitValue(c: char): nat
    requires IsDigit(c)
  {
    c as int - '0' as int
  }

  /** The number of leading decimal digits of s. */
  function DigitRun(s: string): (n: nat)
    ensures n <= |s|
    ensures forall j :: 0 <= j < n ==> IsDigit(s[j])
    ensures n < |s| ==> !IsDigit(s[n])
  {
    if s != [] && IsDigit(s[0]) then 1 + DigitRun(s[1..]) else 0
  }

  /** The value of a string of decimal digits, most significant first. */
  function Decimal(ds: string): nat
    requires forall j :: 0 <= j < |ds| ==> IsDigit(ds[j])
  {
    if ds == [] then 0 else 10 * Decimal(ds[..|ds| - 1]) + DigitValue(ds[|ds| - 1])
  }

  /** atoi: skips leading white space, reads an optional sign, then the
      leading decimal digits; 0 when there are none. The value is the
      mathematical one: the undefined behaviour of atoi on values outside
      int is not modelled. */
  function Atoi(s: string): (r: int)
    ensures s == [] || !(IsSpace(s[0]) || IsDigit(s[0]) || s[0] == '-' || s[0] == '+') ==> r == 0
  {
    if s != [] && IsSpace(s[0]) then Atoi(s[1..])
    else if s != [] && (s[0] == '-' || s[0] == '+') then
      var digits := s[1..][..DigitRun(s[1..])];
      if s[0] == '-' then -(Decimal(digits) as int) else Decimal(digits)
    else Decimal(s[..DigitRun(s)])
  }

  /** The decimal numeral of n, without leading zeros. */
  function Numeral(n: nat): (r: string)
    ensures |r| > 0
    ensures forall j :: 0 <= j < |r| ==> IsDigit(r[j])
  {
    var d := (n % 10 + '0' as int) as char;
    if n < 10 then [d] else Numeral(n / 10) + [d]
  }

  /** Reading the numeral of n back gives n. */
  lemma {:induction false} DecimalNumeral(n: nat)
    ensures Decimal(Numeral(n)) == n
  {
    var r := Numeral(n);
    if n >= 10 {
      assert r[..|r| - 1] == Numeral(n / 10);
      DecimalNumeral(n / 10);
    }
  }

  /** atoi reads back the numeral of every n, whatever follows it that is
      not a digit. */
  lemma AtoiNumeral(n: nat, rest: string)
    requires rest == [] || !IsDigit(rest[0])
    ensures Atoi(Numeral(n) + rest) == n
  {
    var s := Numeral(n) + rest;
    DigitRunNumeral(Numeral(n), rest);
    assert s[..DigitRun(s)] == Numeral(n);
    DecimalNumeral(n);
  }

  /** Leading white space is skipped: what follows any run of white space
      reads as it would alone. */
  lemma {:induction false} AtoiSkipsSpace(spaces: string, s: string)
    requires forall j :: 0 <= j < |spaces| ==> IsSpace(spaces[j])
    ensures Atoi(spaces + s) == Atoi(s)
  {
    if spaces != [] {
      var t := spaces + s;
      assert t[0] == spaces[0];
      assert t[1..] == spaces[1..] + s;
      AtoiSkipsSpace(spaces[1..], s);
    } else {
      assert spaces + s == s;
    }
  }

  /** atoi reads the same through c_str(): it stops before the first NUL
      anyway, since a NUL is neither white space, a sign nor a digit. */
  lemma {:induction false} AtoiCStr(s: string)
    ensures Atoi(CStr(s)) == Atoi(s)
  {
    var r := CStr(s);
    if s == [] || s[0] == NUL {
    } else {
      assert r[0] == s[0] && r[1..] == CStr(s[1..]);
      if IsSpace(s[0]) {
        AtoiCStr(s[1..]);
      } else if s[0] == '-' || s[0] == '+' {
        DigitRunCStr(s[1..]);
      } else {
        DigitRunCStr(s);
      }
    }
  }

  /** The leading digits of a string are those of its C string. */
  lemma {:induction false} DigitRunCStr(s: string)
    ensures DigitRun(CStr(s)) == DigitRun(s)
    ensures CStr(s)[..DigitRun(s)] == s[..DigitRun(s)]
  {
    if s != [] && s[0] != NUL {
      assert CStr(s)[1..] == CStr(s[1..]);
      DigitRunCStr(s[1..]);
    }
  }

  /** A sign in front of a numeral: '-' negates it, '+' does not. */
  lemma AtoiSigned(n: nat, rest: string)
    requires rest == [] || !IsDigit(rest[0])
    ensures Atoi("-" + Numeral(n) + rest) == -(n as int)
    ensures Atoi("+" + Numeral(n) + rest) == n
  {
    AtoiSign('-', n, rest);
    AtoiSign('+', n, rest);
  }

  lemma AtoiSign(sign: char, n: nat, rest: string)
    requires sign == '-' || sign == '+'
    requires rest == [] || !IsDigit(rest[0])
    ensures Atoi([sign] + Numeral(n) + rest) == if sign == '-' then -(n as int) else n
  {
    var t := Numeral(n) + rest;
    var s := [sign] + Numeral(n) + rest;
    assert s == [sign] + t;
    assert s[0] == sign && s[1..] == t;
    DigitRunNumeral(Numeral(n), rest);
    assert t[..DigitRun(t)] == Numeral(n);
    DecimalNumeral(n);
  }

  lemma {:induction false} DigitRunNumeral(ds: string, rest: string)
    requires forall j :: 0 <= j < |ds| ==> IsDigit(ds[j])
    requires rest == [] || !IsDigit(rest[0])
    ensures DigitRun(ds + rest) == |ds|
  {
    if ds != [] {
      assert (ds + rest)[1..] == ds[1..] + rest;
      DigitRunNumeral(ds[1..], rest);
    }
  }

  /** The conversion `char ch = v`: the low byte of v. */
  function NarrowToChar(v: int): (c: char)
    ensures 0 <= c as int < 256
    ensures (c as int - v) % 256 == 0
  {
    (v % 256) as char
  }
}
