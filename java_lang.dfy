/** The few pieces of java.lang that the student roster relies on, each with
    the semantics the Java platform gives it: the 32-bit `int`,
    `Integer.toString`, `Integer.parseInt` (radix 10), `String.split(",")`
    and `String.equalsIgnoreCase`. */
module JavaLang {

  datatype Option<T> = None | Some(value: T)

  /** Java's `int`: the two's-complement 32-bit range. */
  type Int32 = x: int | -0x8000_0000 <= x <= 0x7fff_ffff

  // ---------------------------------------------------------------------
  // Decimal digits

  predicate IsDigit(c: char) {
    '0' <= c <= '9'
  }

  predicate AllDigits(s: string) {
    forall i :: 0 <= i < |s| ==> IsDigit(s[i])
  }

  function DigitValue(c: char): nat
    requires IsDigit(c)
  {
    (c as int) - ('0' as int)
  }

  function DigitChar(d: nat): (c: char)
    requires d < 10
    ensures IsDigit(c) && DigitValue(c) == d
  {
    (('0' as int) + d) as char
  }

  /** The value of a string of decimal digits, most significant digit first. */
  function DigitsValue(s: string): nat
    requires AllDigits(s)
  {
    if s == [] then 0 else DigitsValue(s[..|s| - 1]) * 10 + DigitValue(s[|s| - 1])
  }

  /** Digits with no superfluous leading zero: the only form `Integer.toString` produces. */
  predicate Canonical(s: string) {
    |s| >= 1 && AllDigits(s) && (s[0] == '0' ==> |s| == 1)
  }

  // ---------------------------------------------------------------------
  // Integer.toString

  /** The decimal digits of `n`, most significant first. */
  function NatToDecimal(n: nat): (s: string)
    ensures Canonical(s)
  {
    if n < 10 then [DigitChar(n)] else NatToDecimal(n / 10) + [DigitChar(n % 10)]
  }

  /** `Integer.toString(n)`: a minus sign for negative values, then the digits of |n|. */
  function IntToString(n: Int32): string {
    if n < 0 then "-" + NatToDecimal(-(n as int)) else NatToDecimal(n)
  }

  /** Values from 0 to 99 print as one or two digits. */
  lemma IntToStringSmall(n: Int32)
    requires 0 <= n < 100
    ensures n < 10 ==> IntToString(n) == [DigitChar(n)]
    ensures 10 <= n ==> IntToString(n) == [DigitChar(n / 10), DigitChar(n % 10)]
  {
    if 10 <= n {
      assert NatToDecimal(n) == NatToDecimal(n / 10) + [DigitChar(n % 10)];
    }
  }

  // ---------------------------------------------------------------------
  // Integer.parseInt

  /** `Integer.parseInt(s)`: an optional `+` or `-`, then at least one decimal
      digit, the value within the `int` range. `None` stands for the
      `NumberFormatException` Java throws on every other input. */
  function ParseInt(s: string): Option<Int32> {
    if |s| == 0 then None
    else
      var negative := s[0] == '-';
      var digits := if s[0] == '-' || s[0] == '+' then s[1..] else s;
      if |digits| == 0 || !AllDigits(digits) then None
      else
        var v: int := DigitsValue(digits);
        if negative then
          (if v <= 0x8000_0000 then Some(-v) else None)
        else
          (if v <= 0x7fff_ffff then Some(v) else None)
  }

  lemma {:induction false} DigitsOfNat(n: nat)
    ensures DigitsValue(NatToDecimal(n)) == n
  {
    if n >= 10 {
      DigitsOfNat(n / 10);
      var s := NatToDecimal(n);
      assert s[..|s| - 1] == NatToDecimal(n / 10);
    }
  }

  lemma {:induction false} LeadingNonZero(s: string)
    requires AllDigits(s) && |s| >= 1 && s[0] != '0'
    ensures DigitsValue(s) >= 1
  {
    if |s| > 1 {
      LeadingNonZero(s[..|s| - 1]);
    }
  }

  lemma {:induction false} NatOfDigits(s: string)
    requires Canonical(s)
    ensures NatToDecimal(DigitsValue(s)) == s
  {
    if |s| > 1 {
      var init := s[..|s| - 1];
      LeadingNonZero(init);
      NatOfDigits(init);
      var v := DigitsValue(s);
      assert v / 10 == DigitsValue(init) && v % 10 == DigitValue(s[|s| - 1]);
      assert s == init + [s[|s| - 1]];
    }
  }

  /** `Integer.parseInt` reads back every `int` that `Integer.toString` writes. */
  lemma ParseIntToString(n: Int32)
    ensures ParseInt(IntToString(n)) == Some(n)
  {
    var s := IntToString(n);
    if n < 0 {
      var d := NatToDecimal(-(n as int));
      DigitsOfNat(-(n as int));
      assert s[0] == '-' && s[1..] == d;
    } else {
      var d := NatToDecimal(n);
      DigitsOfNat(n);
      assert s == d && IsDigit(s[0]);
    }
  }

  /** On text in the form `Integer.toString` produces, parsing and printing are
      inverse: the text parses to `n` exactly when it is the rendering of `n`. */
  lemma ParseIntCanonical(s: string, n: Int32)
    requires Canonical(s) || (|s| >= 2 && s[0] == '-' && Canonical(s[1..]) && s[1] != '0')
    ensures ParseInt(s) == Some(n) <==> IntToString(n) == s
  {
    if IntToString(n) == s {
      ParseIntToString(n);
    }
    if ParseInt(s) == Some(n) {
      if s[0] == '-' {
        NatOfDigits(s[1..]);
        assert s == "-" + s[1..];
      } else {
        NatOfDigits(s);
      }
    }
  }

  /** Whatever `Integer.parseInt` accepts is non-empty and free of commas. */
  lemma ParsedHasNoComma(s: string)
    requires ParseInt(s).Some?
    ensures |s| >= 1 && ',' !in s
  {
    var digits := if s[0] == '-' || s[0] == '+' then s[1..] else s;
    assert AllDigits(digits);
    forall i | 0 <= i < |s| ensures s[i] != ',' {
      if i > 0 && (s[0] == '-' || s[0] == '+') {
        assert s[i] == digits[i - 1];
      }
    }
  }

  /** The rendering of an `int` never holds a comma or a line break. */
  lemma IntToStringPlain(n: Int32)
    ensures |IntToString(n)| >= 1
    ensures ',' !in IntToString(n) && '\n' !in IntToString(n)
  {
    ParseIntToString(n);
    ParsedHasNoComma(IntToString(n));
    var digits := NatToDecimal(if n < 0 then -(n as int) else n);
    assert forall i :: 0 <= i < |digits| ==> IsDigit(digits[i]);
    assert '\n' !in digits;
  }

  // ---------------------------------------------------------------------
  // String.split(",")

  /** Every comma-separated field of `s`, empty ones included: the list
      `split` builds before it drops trailing empty strings. */
  function Fields(s: string): (parts: seq<string>)
    ensures |parts| >= 1
  {
    if |s| == 0 then [""]
    else
      var rest := Fields(s[1..]);
      if s[0] == ',' then [""] + rest else [[s[0]] + rest[0]] + rest[1..]
  }

  /** The fields joined back with a comma between each pair. */
  function Join(parts: seq<string>): string
    requires |parts| >= 1
  {
    if |parts| == 1 then parts[0] else parts[0] + "," + Join(parts[1..])
  }

  /** `split` removes trailing empty strings when called without a limit. */
  function DropTrailingEmpty(parts: seq<string>): (r: seq<string>)
    ensures |r| <= |parts| && r == parts[..|r|]
    ensures r == [] || r[|r| - 1] != ""
    ensures forall i :: |r| <= i < |parts| ==> parts[i] == ""
  {
    if |parts| > 0 && parts[|parts| - 1] == "" then DropTrailingEmpty(parts[..|parts| - 1]) else parts
  }

  /** `s.split(",")`: with no comma in `s` the result is `{s}` itself (even for
      the empty string); otherwise the fields with trailing empty ones dropped. */
  function Split(s: string): seq<string> {
    if ',' !in s then [s] else DropTrailingEmpty(Fields(s))
  }

  /** `Fields` cuts exactly at the commas: joining the fields gives back the text. */
  lemma {:induction false} JoinFields(s: string)
    ensures Join(Fields(s)) == s
    ensures forall i :: 0 <= i < |Fields(s)| ==> ',' !in Fields(s)[i]
  {
    if |s| > 0 {
      JoinFields(s[1..]);
      var rest := Fields(s[1..]);
      if s[0] == ',' {
        assert s == "," + s[1..];
      } else {
        var parts := Fields(s);
        if |rest| == 1 {
          assert parts == [[s[0]] + rest[0]];
        } else {
          assert parts[1..] == rest[1..];
          assert Join(rest) == rest[0] + "," + Join(rest[1..]);
        }
      }
    }
  }

  /** And `Join` is undone by `Fields` when no field holds a comma. */
  lemma {:induction false} FieldsJoin(parts: seq<string>)
    requires |parts| >= 1
    requires forall i :: 0 <= i < |parts| ==> ',' !in parts[i]
    ensures Fields(Join(parts)) == parts
  {
    if |parts| == 1 {
      FieldsNoComma(parts[0]);
    } else {
      FieldsJoin(parts[1..]);
      FieldsPrefix(parts[0], Join(parts[1..]));
      assert parts == [parts[0]] + parts[1..];
    }
  }

  lemma {:induction false} FieldsNoComma(s: string)
    requires ',' !in s
    ensures Fields(s) == [s]
  {
    if |s| > 0 {
      FieldsNoComma(s[1..]);
      assert [s[0]] + s[1..] == s;
    }
  }

  lemma {:induction false} FieldsPrefix(a: string, b: string)
    requires ',' !in a
    ensures Fields(a + "," + b) == [a] + Fields(b)
  {
    var s := a + "," + b;
    if |a| == 0 {
      assert s == "," + b && s[1..] == b;
    } else {
      assert s[1..] == a[1..] + "," + b;
      FieldsPrefix(a[1..], b);
      assert [a[0]] + a[1..] == a;
    }
  }

  /** A line built from three comma-free parts, the last one non-empty, splits
      back into exactly those three parts. */
  lemma SplitThree(a: string, b: string, c: string)
    requires ',' !in a && ',' !in b && ',' !in c && c != ""
    ensures Split(a + "," + b + "," + c) == [a, b, c]
  {
    var s := a + "," + b + "," + c;
    assert Join([b, c]) == b + "," + c;
    assert s == Join([a, b, c]);
    FieldsJoin([a, b, c]);
    assert s[|a|] == ',';
  }

  /** Trailing empty fields are dropped, so a line with an empty last field
      has fewer than three parts. */
  lemma SplitDropsTrailingEmpty()
    ensures Split("Bob,2,") == ["Bob", "2"]
  {
    var s := "Bob,2,";
    assert Join(["2", ""]) == "2,";
    assert s == Join(["Bob", "2", ""]);
    FieldsJoin(["Bob", "2", ""]);
    assert s[3] == ',';
  }

  /** A text of commas alone splits into no parts at all, while the empty
      text, which holds no comma, is one empty part. */
  lemma SplitOnlyCommas()
    ensures Split(",,") == []
    ensures Split("") == [""]
  {
    var s := ",,";
    assert Join(["", ""]) == ",";
    assert s == Join(["", "", ""]);
    FieldsJoin(["", "", ""]);
    assert s[0] == ',';
  }

  // ---------------------------------------------------------------------
  // String.equalsIgnoreCase

  /** Case folding restricted to the ASCII letters. */
  function ToLowerAscii(c: char): char {
    if 'A' <= c <= 'Z' then (c as int + 32) as char else c
  }

  function LowerAscii(s: string): (r: string)
    ensures |r| == |s|
    ensures forall i :: 0 <= i < |s| ==> r[i] == ToLowerAscii(s[i])
  {
    if s == [] then [] else [ToLowerAscii(s[0])] + LowerAscii(s[1..])
  }

  /** `a.equalsIgnoreCase(b)`: same length and the characters agree pairwise
      up to case. */
  predicate EqualsIgnoreCase(a: string, b: string) {
    |a| == |b| && forall i :: 0 <= i < |a| ==> ToLowerAscii(a[i]) == ToLowerAscii(b[i])
  }

  /** Two names match ignoring case exactly when their lower-case forms are equal. */
  lemma EqualsIgnoreCaseLower(a: string, b: string)
    ensures EqualsIgnoreCase(a, b) <==> LowerAscii(a) == LowerAscii(b)
  {
    if LowerAscii(a) == LowerAscii(b) {
      assert |a| == |b|;
      forall i | 0 <= i < |a| ensures ToLowerAscii(a[i]) == ToLowerAscii(b[i]) {
        assert LowerAscii(a)[i] == LowerAscii(b)[i];
      }
    }
  }

  /** Matching ignoring case is an equivalence relation. */
  lemma EqualsIgnoreCaseEquivalence(a: string, b: string, c: string)
    ensures EqualsIgnoreCase(a, a)
    ensures EqualsIgnoreCase(a, b) ==> EqualsIgnoreCase(b, a)
    ensures EqualsIgnoreCase(a, b) && EqualsIgnoreCase(b, c) ==> EqualsIgnoreCase(a, c)
  {
  }
}
