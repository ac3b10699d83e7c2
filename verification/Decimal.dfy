// Decimal numerals, and lists of numerals joined by a separator.
module Decimal {

  predicate IsDigit(c: char) {
    '0' <= c <= '9'
  }

  predicate AllDigits(s: string) {
    forall k :: 0 <= k < |s| ==> IsDigit(s[k])
  }

  predicate IsNumeral(s: string) {
    s != "" && AllDigits(s)
  }

  function Digit(d: nat): char
    requires d < 10
  {
    '0' + d as char
  }

  function Print(n: nat): string {
    if n < 10 then [Digit(n)] else Print(n / 10) + [Digit(n % 10)]
  }

  /** The number that digits denote; leading zeros are allowed, and no digits are zero. */
  function Value(s: string): nat
    requires AllDigits(s)
  {
    if s == "" then 0 else Value(s[..|s| - 1]) * 10 + (s[|s| - 1] - '0') as nat
  }

  /** No leading zero. */
  predicate Canonical(s: string)
    requires IsNumeral(s)
  {
    s[0] != '0' || |s| == 1
  }

  lemma {:induction false} PrintThenValue(n: nat)
    ensures IsNumeral(Print(n)) && Canonical(Print(n)) && Value(Print(n)) == n
    ensures n > 0 ==> Print(n)[0] != '0'
  {
    var p := Print(n);
    if n < 10 {
      assert p[..0] == "";
    } else {
      PrintThenValue(n / 10);
      assert p[..|p| - 1] == Print(n / 10);
    }
  }

  lemma ValueThenPrint(s: string)
    requires IsNumeral(s)
    ensures Print(Value(s)) == s <==> Canonical(s)
  {
    PrintThenValue(Value(s));
    if Canonical(s) {
      CanonicalPrinted(s);
    }
  }

  lemma {:induction false} CanonicalPrinted(s: string)
    requires IsNumeral(s) && Canonical(s)
    ensures Print(Value(s)) == s && (s[0] != '0' ==> Value(s) > 0)
  {
    var top, last := s[..|s| - 1], s[|s| - 1];
    assert s == top + [last];
    assert Digit((last - '0') as nat) == last;
    if |s| > 1 {
      CanonicalPrinted(top);
      assert Value(s) / 10 == Value(top) && Value(s) % 10 == (last - '0') as nat;
    }
  }

  /** At least two digits, as `padStart(2, "0")` gives. */
  function Pad(n: nat): string {
    if n < 10 then "0" + Print(n) else Print(n)
  }

  lemma PadThenValue(n: nat)
    ensures IsNumeral(Pad(n)) && Value(Pad(n)) == n && |Pad(n)| >= 2
    ensures |Pad(n)| > 2 ==> Pad(n)[0] != '0'
  {
    PrintThenValue(n);
    if n < 10 {
      var p := Pad(n);
      assert p == ['0', Digit(n)];
      assert p[..1] == "0" && "0"[..0] == "";
      assert Value("0") == 0;
    } else {
      PrintThenValue(n / 10);
    }
  }

  lemma DigitsHaveNo(s: string, sep: char)
    requires AllDigits(s) && !IsDigit(sep)
    ensures sep !in s
  {
  }

  // ---------------------------------------------------------------- separators

  function Join(parts: seq<string>, sep: char): string {
    if parts == [] then "" else if |parts| == 1 then parts[0] else parts[0] + [sep] + Join(parts[1..], sep)
  }

  function Split(s: string, sep: char): (parts: seq<string>)
    ensures parts != []
  {
    if s == "" then [""]
    else
      var rest := Split(s[1..], sep);
      if s[0] == sep then [""] + rest else [[s[0]] + rest[0]] + rest[1..]
  }

  lemma {:induction false} SplitFirst(p: string, tail: string, sep: char)
    requires sep !in p
    ensures Split(p, sep) == [p]
    ensures Split(p + [sep] + tail, sep) == [p] + Split(tail, sep)
  {
    var s := p + [sep] + tail;
    if p == "" {
      assert s[1..] == tail;
    } else {
      SplitFirst(p[1..], tail, sep);
      assert s[1..] == p[1..] + [sep] + tail;
      assert [p[0]] + p[1..] == p;
    }
  }

  lemma {:induction false} JoinThenSplit(parts: seq<string>, sep: char)
    requires parts != [] && forall k :: 0 <= k < |parts| ==> sep !in parts[k]
    ensures Split(Join(parts, sep), sep) == parts
  {
    if |parts| == 1 {
      SplitFirst(parts[0], "", sep);
    } else {
      JoinThenSplit(parts[1..], sep);
      SplitFirst(parts[0], Join(parts[1..], sep), sep);
    }
  }

  lemma {:induction false} SplitThenJoin(s: string, sep: char)
    ensures Join(Split(s, sep), sep) == s
    ensures forall k :: 0 <= k < |Split(s, sep)| ==> sep !in Split(s, sep)[k]
  {
    if s != "" {
      SplitThenJoin(s[1..], sep);
      var rest, parts := Split(s[1..], sep), Split(s, sep);
      assert s == [s[0]] + s[1..];
      assert parts[1..] == if s[0] == sep then rest else rest[1..];
      if s[0] != sep && |rest| > 1 {
        assert Join(rest, sep) == rest[0] + [sep] + Join(rest[1..], sep);
        assert ([s[0]] + rest[0]) + [sep] + Join(rest[1..], sep) == [s[0]] + Join(rest, sep);
      }
    }
  }
}
