/** The PHP built-ins the core relies on, stated on Dafny strings: trim(),
    string truthiness, substr() and strncmp() for the offsets the core uses,
    and the conversion of a numeric string to an integer. */
module Php {

  /** The characters trim() strips by default: space, tab, line feed,
      carriage return, NUL and vertical tab. */
  predicate IsTrimmable(ch: char)
  {
    ch == ' ' || ch == '\t' || ch == '\n' || ch == '\r' || ch == '\0' || ch == '\U{0B}'
  }

  /** A string that starts and ends with a character trim() keeps. */
  predicate IsTrimmed(s: string)
  {
    s == [] || (!IsTrimmable(s[0]) && !IsTrimmable(s[|s| - 1]))
  }

  /** ltrim(): drops every leading trimmable character; what is left does
      not start with one. */
  function TrimLeft(s: string): (r: string)
    ensures |r| <= |s|
    ensures r != [] ==> !IsTrimmable(r[0])
    decreases |s|
  {
    if |s| > 0 && IsTrimmable(s[0]) then TrimLeft(s[1..]) else s
  }

  /** rtrim(): drops every trailing trimmable character; what is left does
      not end with one. */
  function TrimRight(s: string): (r: string)
    ensures |r| <= |s|
    ensures r != [] ==> !IsTrimmable(r[|r| - 1])
    decreases |s|
  {
    if |s| > 0 && IsTrimmable(s[|s| - 1]) then TrimRight(s[..|s| - 1]) else s
  }

  /** ltrim() leaves a suffix of s, and everything it dropped is trimmable. */
  lemma {:induction false} TrimLeftDropsBlanks(s: string)
    ensures TrimLeft(s) == s[|s| - |TrimLeft(s)|..]
    ensures forall k :: 0 <= k < |s| - |TrimLeft(s)| ==> IsTrimmable(s[k])
    decreases |s|
  {
    if |s| > 0 && IsTrimmable(s[0]) {
      TrimLeftDropsBlanks(s[1..]);
      assert forall k :: 1 <= k < |s| - |TrimLeft(s)| ==> s[k] == s[1..][k - 1];
    }
  }

  /** rtrim() leaves a prefix of s, and everything it dropped is trimmable. */
  lemma {:induction false} TrimRightDropsBlanks(s: string)
    ensures TrimRight(s) == s[..|TrimRight(s)|]
    ensures forall k :: |TrimRight(s)| <= k < |s| ==> IsTrimmable(s[k])
    decreases |s|
  {
    if |s| > 0 && IsTrimmable(s[|s| - 1]) {
      TrimRightDropsBlanks(s[..|s| - 1]);
      assert forall k :: |TrimRight(s)| <= k < |s| - 1 ==> s[k] == s[..|s| - 1][k];
    }
  }

  /** The number of trimmable characters s starts with. */
  function LeadingBlanks(s: string): (n: nat)
    ensures n <= |s|
  {
    |s| - |TrimLeft(s)|
  }

  /** trim(): the string without its leading and trailing trimmable characters. */
  function Trim(s: string): (r: string)
    ensures IsTrimmed(r) && |r| <= |s|
  {
    var l := TrimLeft(s);
    TrimRightDropsBlanks(l);
    TrimRight(l)
  }

  /** trim() keeps the slice of s that starts after its LeadingBlanks(s)
      trimmable characters and ends before its trailing ones. */
  lemma TrimCutsBlanks(s: string)
    ensures LeadingBlanks(s) + |Trim(s)| <= |s| && Trim(s) == s[LeadingBlanks(s)..LeadingBlanks(s) + |Trim(s)|]
    ensures forall k :: 0 <= k < LeadingBlanks(s) ==> IsTrimmable(s[k])
    ensures forall k :: LeadingBlanks(s) + |Trim(s)| <= k < |s| ==> IsTrimmable(s[k])
  {
    var l := TrimLeft(s);
    var r := TrimRight(l);
    var i := |s| - |l|;
    TrimLeftDropsBlanks(s);
    TrimRightDropsBlanks(l);
    assert r == s[i..i + |r|];
    assert forall k :: i + |r| <= k < |s| ==> s[k] == l[k - i];
  }

  /** A string that is already trimmed is a fixed point of trim(), and only such a string is. */
  lemma TrimFixpoint(s: string)
    ensures Trim(s) == s <==> IsTrimmed(s)
  {
    if IsTrimmed(s) {
      if s != [] {
        assert TrimLeft(s) == s;
        assert TrimRight(s) == s;
      }
    }
  }

  /** trim() is idempotent. */
  lemma TrimIdempotent(s: string)
    ensures Trim(Trim(s)) == Trim(s)
  {
    TrimFixpoint(Trim(s));
  }

  /** PHP's truthiness of a string: only "" and "0" are false. */
  predicate Truthy(s: string)
  {
    s != "" && s != "0"
  }

  /** strncmp(prefix, s, |prefix|) === 0: the first |prefix| bytes of s are prefix. */
  predicate StartsWith(s: string, prefix: string)
  {
    |prefix| <= |s| && s[..|prefix|] == prefix
  }

  /** substr(s, start) for a non-negative start: the tail from index start,
      and "" when s is shorter than start. */
  function SubstrFrom(s: string, start: nat): (r: string)
    ensures |r| == if start <= |s| then |s| - start else 0
    ensures start <= |s| ==> s[..start] + r == s
  {
    if start <= |s| then s[start..] else ""
  }

  /** substr(s, start, -1) for a non-negative start: from index start up to,
      but not including, the last character; "" when nothing is left. */
  function SubstrButLast(s: string, start: nat): (r: string)
    ensures |r| == if start < |s| then |s| - 1 - start else 0
    ensures start < |s| ==> s[..start] + r + [s[|s| - 1]] == s
  {
    if start < |s| then s[start..|s| - 1] else ""
  }

  predicate IsDigit(ch: char)
  {
    '0' <= ch <= '9'
  }

  /** The longest prefix of s made of decimal digits. */
  function LeadingDigits(s: string): (r: string)
    ensures |r| <= |s| && r == s[..|r|]
    ensures forall k :: 0 <= k < |r| ==> IsDigit(r[k])
    ensures |r| < |s| ==> !IsDigit(s[|r|])
  {
    if |s| > 0 && IsDigit(s[0]) then [s[0]] + LeadingDigits(s[1..]) else []
  }

  /** The value of a string of decimal digits. */
  function DecimalValue(digits: string): (n: nat)
    requires forall k :: 0 <= k < |digits| ==> IsDigit(digits[k])
  {
    if digits == [] then 0
    else
      var last := digits[|digits| - 1];
      assert IsDigit(last);
      10 * DecimalValue(digits[..|digits| - 1]) + (last as int - '0' as int)
  }

  /** The integer PHP's arithmetic reads from a string: the value of its
      leading digits, 0 when there are none. */
  function ToInt(s: string): (n: nat)
  {
    DecimalValue(LeadingDigits(s))
  }

  /** The decimal rendering of a number, the inverse partner of ToInt. */
  function Decimal(n: nat): (s: string)
    ensures |s| > 0 && forall k :: 0 <= k < |s| ==> IsDigit(s[k])
  {
    if n < 10 then [('0' as int + n) as char] else Decimal(n / 10) + [('0' as int + n % 10) as char]
  }

  /** Reading back the rendering of a number gives the number. */
  lemma {:induction false} DecimalRoundTrip(n: nat)
    ensures DecimalValue(Decimal(n)) == n
  {
    if n >= 10 {
      var s := Decimal(n);
      assert s[..|s| - 1] == Decimal(n / 10);
      DecimalRoundTrip(n / 10);
    }
  }

  /** Digits followed by a non-digit read as the digits alone. */
  lemma {:induction false} LeadingDigitsStop(d: string, rest: string)
    requires forall k :: 0 <= k < |d| ==> IsDigit(d[k])
    requires rest == [] || !IsDigit(rest[0])
    ensures LeadingDigits(d + rest) == d
  {
    if d != [] {
      assert (d + rest)[1..] == d[1..] + rest;
      LeadingDigitsStop(d[1..], rest);
    }
  }

  /** ToInt reads back any rendered number, whatever follows it. */
  lemma ToIntDecimal(n: nat, rest: string)
    requires rest == [] || !IsDigit(rest[0])
    ensures ToInt(Decimal(n) + rest) == n
  {
    LeadingDigitsStop(Decimal(n), rest);
    DecimalRoundTrip(n);
  }
}
