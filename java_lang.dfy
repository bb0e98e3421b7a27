/** The parts of the Java class library that Version.java leans on:
    32-bit `int`, `Integer.toString`, `Integer.parseInt` and
    `String.split` with a one-character literal pattern. */
module JavaLang {
  import opened Wrappers

  /** Java's `int`. */
  type int32 = x: int | -0x8000_0000 <= x <= 0x7FFF_FFFF

  const MinInt32: int := -0x8000_0000
  const MaxInt32: int := 0x7FFF_FFFF

  predicate IsDigit(c: char) { '0' <= c <= '9' }

  predicate AllDigits(s: string) { forall i :: 0 <= i < |s| ==> IsDigit(s[i]) }

  function DigitValue(c: char): (d: nat)
    requires IsDigit(c)
    ensures d < 10
  {
    c as int - '0' as int
  }

  function DigitChar(d: nat): (c: char)
    requires d < 10
    ensures IsDigit(c) && DigitValue(c) == d
  {
    ('0' as int + d) as char
  }

  /** The value of a string of decimal digits, most significant first. */
  function DigitsValue(s: string): nat
    requires AllDigits(s)
    decreases |s|
  {
    if |s| == 0 then 0 else 10 * DigitsValue(s[..|s| - 1]) + DigitValue(s[|s| - 1])
  }

  /** Shortest decimal rendering of a natural number; it reads back as the
      same number. */
  function NatToString(n: nat): (r: string)
    ensures |r| > 0 && AllDigits(r) && DigitsValue(r) == n
    ensures |r| > 1 ==> r[0] != '0'
    decreases n
  {
    if n < 10 then [DigitChar(n)]
    else
      var prefix := NatToString(n / 10);
      var r := prefix + [DigitChar(n % 10)];
      assert r[..|r| - 1] == prefix;
      r
  }

  /** `Integer.toString(n)`: a minus sign for negative values, then the
      decimal digits of the magnitude. */
  function IntToString(n: int): (r: string)
    ensures |r| > 0
    ensures forall i :: 0 < i < |r| ==> IsDigit(r[i])
    ensures n < 0 <==> r[0] == '-'
    ensures n >= 0 ==> IsDigit(r[0])
    ensures n < 0 ==> |r| > 1
  {
    if n < 0 then "-" + NatToString(-n) else NatToString(n)
  }

  /** `Integer.parseInt(s)`: an optional `+` or `-`, then at least one
      ASCII digit and nothing else, and a value inside the `int` range;
      anything else throws, which is `None` here. */
  function ParseInt(s: string): (r: Option<int32>)
    ensures r.Some? ==> |s| > 0
  {
    if |s| == 0 then None
    else
      var digits := if s[0] == '-' || s[0] == '+' then s[1..] else s;
      if |digits| == 0 || !AllDigits(digits) then None
      else
        var magnitude: int := DigitsValue(digits);
        var v := if s[0] == '-' then -magnitude else magnitude;
        if MinInt32 <= v <= MaxInt32 then Some(v) else None
  }

  /** `Integer.parseInt` reads back what `Integer.toString` writes, for
      every `int` (the most negative one included). */
  lemma ParseIntToString(n: int32)
    ensures ParseInt(IntToString(n)) == Some(n)
  {
    var s := IntToString(n);
    if n < 0 {
      assert s[1..] == NatToString(-(n as int));
    }
  }

  /** A character that is not a digit anywhere after the first position
      makes `Integer.parseInt` throw. */
  lemma ParseIntRejects(s: string, i: nat)
    requires 1 <= i < |s| && !IsDigit(s[i])
    ensures ParseInt(s) == None
  {
    var digits := if s[0] == '-' || s[0] == '+' then s[1..] else s;
    if s[0] == '-' || s[0] == '+' {
      assert digits[i - 1] == s[i];
    } else {
      assert digits[i] == s[i];
    }
  }

  /** A plain run of digits within range parses to its decimal value. */
  lemma ParseIntDigits(s: string)
    requires |s| > 0 && AllDigits(s) && DigitsValue(s) <= MaxInt32
    ensures ParseInt(s) == Some(DigitsValue(s))
  {
  }

  /** A first character that is neither a sign nor a digit makes
      `Integer.parseInt` throw. */
  lemma ParseIntBadStart(s: string)
    requires |s| > 0 && s[0] != '+' && s[0] != '-' && !IsDigit(s[0])
    ensures ParseInt(s) == None
  {
  }

  /** A leading `+` is accepted and changes nothing, a leading `-` negates
      (down to the most negative `int`), and a sign on its own throws. */
  lemma ParseIntSigned(digits: string)
    requires |digits| > 0 && AllDigits(digits)
    ensures ParseInt("+" + digits) == ParseInt(digits)
    ensures DigitsValue(digits) <= MaxInt32 + 1 ==>
              ParseInt("-" + digits).Some? && ParseInt("-" + digits).value as int == -(DigitsValue(digits) as int)
    ensures ParseInt("+") == None && ParseInt("-") == None
  {
    assert ("+" + digits)[1..] == digits;
    assert ("-" + digits)[1..] == digits;
    assert IsDigit(digits[0]);
  }

  /** A magnitude beyond the `int` range makes `Integer.parseInt` throw,
      with or without a sign. */
  lemma ParseIntOverflow(digits: string)
    requires |digits| > 0 && AllDigits(digits) && DigitsValue(digits) > MaxInt32
    ensures ParseInt(digits) == None
    ensures ParseInt("+" + digits) == None
    ensures DigitsValue(digits) > MaxInt32 + 1 ==> ParseInt("-" + digits) == None
  {
    assert IsDigit(digits[0]);
    assert ("+" + digits)[1..] == digits;
    assert ("-" + digits)[1..] == digits;
  }

  /** `s.split(sep)` before trailing empty strings are removed: the text
      between consecutive separators, so one more piece than there are
      separators. */
  function Pieces(s: string, sep: char): (r: seq<string>)
    ensures |r| >= 1
    ensures sep !in s ==> r == [s]
    decreases |s|
  {
    if |s| == 0 then [""]
    else
      var rest := Pieces(s[1..], sep);
      if s[0] == sep then [""] + rest
      else
        assert sep !in s ==> [s[0]] + s[1..] == s;
        [[s[0]] + rest[0]] + rest[1..]
  }

  function DropTrailingEmpty(xs: seq<string>): (r: seq<string>)
    ensures |r| <= |xs| && r == xs[..|r|]
    ensures |r| > 0 ==> r[|r| - 1] != ""
    ensures forall k :: |r| <= k < |xs| ==> xs[k] == ""
    decreases |xs|
  {
    if |xs| > 0 && xs[|xs| - 1] == "" then DropTrailingEmpty(xs[..|xs| - 1]) else xs
  }

  /** Java's `s.split(regex)` for a regex matching exactly the character
      `sep`: with no match the whole string is the only token (so `""`
      gives `[""]`); otherwise the pieces with trailing empty strings
      removed (so `"."` gives no token at all). */
  function Split(s: string, sep: char): (r: seq<string>)
    ensures |r| <= |Pieces(s, sep)| && r == Pieces(s, sep)[..|r|]
    ensures forall k :: |r| <= k < |Pieces(s, sep)| ==> Pieces(s, sep)[k] == ""
    ensures sep !in s ==> r == [s]
    ensures sep in s ==> |r| == 0 || r[|r| - 1] != ""
  {
    if sep !in s then [s] else DropTrailingEmpty(Pieces(s, sep))
  }

  /** The two edge cases: `"".split(...)` is one empty token, while a lone
      separator gives no token at all. */
  lemma SplitEdges(sep: char)
    ensures Split("", sep) == [""]
    ensures Split([sep], sep) == []
  {
    assert Pieces([sep], sep) == ["", ""] by {
      assert [sep][1..] == "";
    }
    assert DropTrailingEmpty(["", ""]) == DropTrailingEmpty([""]) by {
      assert ["", ""][..1] == [""];
    }
    assert DropTrailingEmpty([""]) == [] by {
      assert [""][..0] == [];
    }
  }

  /** Splitting text that starts with a separator-free field `a` followed
      by the separator gives `a` and then the pieces of the rest. */
  lemma {:induction false} PiecesCons(a: string, sep: char, rest: string)
    requires sep !in a
    ensures Pieces(a + [sep] + rest, sep) == [a] + Pieces(rest, sep)
    decreases |a|
  {
    if |a| == 0 {
      assert a + [sep] + rest == [sep] + rest;
      assert ([sep] + rest)[1..] == rest;
    } else {
      var s := a + [sep] + rest;
      assert s[0] == a[0];
      assert s[1..] == a[1..] + [sep] + rest;
      PiecesCons(a[1..], sep, rest);
      assert [a[0]] + a[1..] == a;
    }
  }

  /** The first piece of `a + b`, for a separator-free `a`, is `a`
      followed by the first piece of `b`. */
  lemma {:induction false} FirstPieceAppend(a: string, sep: char, b: string)
    requires sep !in a
    ensures Pieces(a + b, sep)[0] == a + Pieces(b, sep)[0]
    decreases |a|
  {
    if |a| > 0 {
      var s := a + b;
      assert s[0] == a[0];
      assert s[1..] == a[1..] + b;
      FirstPieceAppend(a[1..], sep, b);
      assert [a[0]] + a[1..] == a;
    } else {
      assert a + b == b;
    }
  }

  /** A piece starting at a character other than the separator begins
      with that character. */
  lemma FirstPieceStart(b: string, sep: char)
    requires |b| > 0 && b[0] != sep
    ensures |Pieces(b, sep)[0]| > 0 && Pieces(b, sep)[0][0] == b[0]
  {
  }
}
