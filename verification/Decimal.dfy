/** Decimal parsing with the division guard against overflow, and its inverse, decimal printing. */
module Decimal {
  import opened Sequences
  import opened CStrings

  predicate IsDigit(c: char) {
    '0' <= c <= '9'
  }

  function Digit(c: char): (d: int32)
    requires IsDigit(c)
    ensures 0 <= d <= 9
  {
    (c as int - '0' as int) as int32
  }

  ghost predicate AllDigits(s: string) {
    forall i :: 0 <= i < |s| ==> IsDigit(s[i])
  }

  /** The number a digit string denotes, unbounded. */
  ghost function Value(s: string): nat
    requires AllDigits(s)
  {
    if s == [] then 0 else 10 * Value(s[..|s| - 1]) + Digit(s[|s| - 1]) as nat
  }

  /** What an int-sized decimal parser should accept. */
  ghost function Parsed(s: string): Option<int32> {
    if s != [] && AllDigits(s) && Value(s) <= INT_MAX then Some(Value(s) as int32) else None
  }

  /** The decimal number that follows a fixed prefix. */
  ghost function ParsedAfter(prefix: string, s: string): Option<int32> {
    if prefix <= s then Parsed(s[|prefix|..]) else None
  }

  lemma {:induction false} ValueGrows(s: string, i: nat)
    requires AllDigits(s) && i <= |s|
    ensures Value(s[..i]) <= Value(s)
  {
    if i < |s| {
      assert s[..|s| - 1][..i] == s[..i];
      ValueGrows(s[..|s| - 1], i);
    } else {
      assert s[..i] == s;
    }
  }

  /** Once a prefix is too large, or is not a number, so is the whole string. */
  lemma PrefixRejects(s: string, i: nat)
    requires 0 < i <= |s| && Parsed(s[..i]) == None
    ensures Parsed(s) == None
  {
    if AllDigits(s) {
      ValueGrows(s, i);
    }
  }

  /** The guard against overflow: another digit would not fit an int. */
  predicate NoRoomFor(value: int32, digit: int32)
    requires 0 <= digit <= 9
  {
    value > (0x7fff_ffff - digit) / 10
  }

  method ParseNonnegativeInt(src: string) returns (r: Option<int32>)
    ensures r == Parsed(src)
  {
    if |src| == 0 {
      return None;
    }
    var parsed: int32 := 0;
    for i := 0 to |src|
      invariant AllDigits(src[..i]) && 0 <= parsed && Value(src[..i]) == parsed as nat
    {
      assert src[..i + 1][..i] == src[..i];
      if !IsDigit(src[i]) {
        return None;
      }
      var digit := Digit(src[i]);
      if NoRoomFor(parsed, digit) {
        PrefixRejects(src, i + 1);
        return None;
      }
      parsed := parsed * 10 + digit;
    }
    assert src[..|src|] == src;
    return Some(parsed);
  }

  /** The text between a start and a cursor is a numeral with this value. */
  ghost predicate Reads(s: string, start: nat, cursor: nat, value: int32) {
    start <= cursor <= |s| && AllDigits(s[start..cursor]) && 0 <= value && Value(s[start..cursor]) == value as nat
  }

  /** One turn of a cursor loop: the whole text is rejected, or one more digit has been read. */
  lemma ReadsNext(s: string, start: nat, cursor: nat, value: int32)
    requires Reads(s, start, cursor, value) && cursor < |s|
    ensures var c := s[cursor];
            if IsDigit(c) && !NoRoomFor(value, Digit(c)) then Reads(s, start, cursor + 1, value * 10 + Digit(c))
            else Parsed(s[start..]) == None
  {
    var front := s[start..cursor + 1];
    assert front[..|front| - 1] == s[start..cursor] && front[|front| - 1] == s[cursor];
    assert s[start..][..cursor + 1 - start] == front;
    if !(IsDigit(s[cursor]) && !NoRoomFor(value, Digit(s[cursor]))) {
      PrefixRejects(s[start..], cursor + 1 - start);
    }
  }

  method NameIsNvidiaMinor(name: Option<string>) returns (r: Option<int32>)
    ensures r == if name.Some? then ParsedAfter("nvidia", name.value) else None
  {
    if name.None? || !("nvidia" <= name.value) {
      return None;
    }
    var s, cursor, value := name.value, |"nvidia"|, 0 as int32;
    if cursor == |s| || !IsDigit(s[cursor]) {
      return None;
    }
    while cursor < |s|
      invariant Reads(s, |"nvidia"|, cursor, value)
    {
      ReadsNext(s, |"nvidia"|, cursor, value);
      if !IsDigit(s[cursor]) {
        return None;
      }
      var digit := Digit(s[cursor]);
      if NoRoomFor(value, digit) {
        return None;
      }
      value := value * 10 + digit;
      cursor := cursor + 1;
    }
    assert s[|"nvidia"|..cursor] == s[|"nvidia"|..];
    return Some(value);
  }

  // ----- printing

  function Printed(n: nat): string {
    (if n < 10 then "" else Printed(n / 10)) + [('0' as int + n % 10) as char]
  }

  lemma {:induction false} PrintedIsNumeral(n: nat)
    ensures AllDigits(Printed(n)) && Printed(n) != [] && Value(Printed(n)) == n
  {
    var s := Printed(n);
    if n >= 10 {
      PrintedIsNumeral(n / 10);
      assert s[..|s| - 1] == Printed(n / 10);
    } else {
      assert s[..|s| - 1] == "";
    }
  }

  lemma ParseInvertsPrint(n: nat)
    ensures Parsed(Printed(n)) == if n <= INT_MAX then Some(n as int32) else None
  {
    PrintedIsNumeral(n);
  }

  function Zeros(n: nat): string {
    seq(n, _ => '0')
  }

  lemma LastDigit(n: nat, c: char)
    requires IsDigit(c)
    ensures Printed(10 * n + Digit(c) as nat) == (if n == 0 then "" else Printed(n)) + [c]
  {
  }

  /** s is the printed n behind some zeros. */
  ghost predicate PaddedNumeral(s: string, n: nat) {
    |Printed(n)| <= |s| && s == Zeros(|s| - |Printed(n)|) + Printed(n)
  }

  lemma PaddedSnoc(s: string, n: nat, c: char)
    requires IsDigit(c) && (s == [] ==> n == 0) && (s != [] ==> PaddedNumeral(s, n))
    ensures PaddedNumeral(s + [c], 10 * n + Digit(c) as nat)
  {
    LastDigit(n, c);
    if n == 0 {
      assert Printed(0) == "0";
      assert s == Zeros(|s|);
    } else {
      assert s + [c] == Zeros(|s| - |Printed(n)|) + (Printed(n) + [c]);
    }
  }

  /** The accepted strings are the printed numbers up to INT_MAX with any number of leading zeros. */
  lemma {:induction false} NumeralShape(s: string)
    requires s != [] && AllDigits(s)
    ensures PaddedNumeral(s, Value(s))
  {
    var t, last := s[..|s| - 1], s[|s| - 1];
    if t != [] {
      NumeralShape(t);
    }
    PaddedSnoc(t, Value(t), last);
    assert s == t + [last];
  }

  lemma {:induction false} ZerosKeepValue(k: nat, n: nat)
    ensures AllDigits(Zeros(k) + Printed(n)) && Value(Zeros(k) + Printed(n)) == n
    decreases k + n
  {
    var s := Zeros(k) + Printed(n);
    PrintedIsNumeral(n);
    if n >= 10 {
      ZerosKeepValue(k, n / 10);
      assert s[..|s| - 1] == Zeros(k) + Printed(n / 10);
    } else if k > 0 {
      ZerosKeepValue(k - 1, 0);
      assert s[..|s| - 1] == Zeros(k - 1) + Printed(0);
    } else {
      assert s == Printed(n);
    }
  }

  lemma ParseExact(s: string, v: nat)
    ensures (v <= INT_MAX && Parsed(s) == Some(v as int32)) <==>
            (v <= INT_MAX && exists k: nat :: s == Zeros(k) + Printed(v))
  {
    if v <= INT_MAX && Parsed(s) == Some(v as int32) {
      NumeralShape(s);
    }
    if v <= INT_MAX && exists k: nat :: s == Zeros(k) + Printed(v) {
      var k: nat :| s == Zeros(k) + Printed(v);
      ZerosKeepValue(k, v);
      PrintedIsNumeral(v);
    }
  }
}
