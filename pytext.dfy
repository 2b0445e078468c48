/**
 * The pieces of Python's `str` behaviour that the application relies on:
 * `isspace`, `strip`, `int` in base 10 and `split` on a one-character separator.
 * `Join` and `Flatten` (`sep.join` and `"".join`) are not called by the application;
 * they are reference definitions the lemmas state `split` and the page loops against.
 */
module PyText {
  import opened Wrappers

  /**
   * `c.isspace()`: the characters whose Unicode bidirectional class is WS, B or S,
   * or whose category is Zs.  `str.strip()` with no argument strips exactly these.
   */
  predicate IsSpace(c: char)
  {
    var n := c as int;
    (0x09 <= n <= 0x0D) || (0x1C <= n <= 0x20) || n == 0x85 || n == 0xA0 || n == 0x1680
    || (0x2000 <= n <= 0x200A) || n == 0x2028 || n == 0x2029 || n == 0x202F
    || n == 0x205F || n == 0x3000
  }

  /**
   * The whitespace `int()` skips around a number: every non-ASCII `isspace` character
   * is first turned into a blank, and then only the ASCII blanks `\t \n \v \f \r`
   * and space are skipped, so the separators U+001C to U+001F are not.
   */
  predicate IsIntSpace(c: char)
  {
    IsSpace(c) && !(0x1C <= c as int <= 0x1F)
  }

  predicate IsDigit(c: char)
  {
    '0' <= c <= '9'
  }

  /** `s.lstrip()` for the whitespace set `ws`. */
  function TrimStart(ws: char -> bool, s: string): string
    decreases |s|
  {
    if s != [] && ws(s[0]) then TrimStart(ws, s[1..]) else s
  }

  /** `s.rstrip()` for the whitespace set `ws`. */
  function TrimEnd(ws: char -> bool, s: string): string
    decreases |s|
  {
    if s != [] && ws(s[|s| - 1]) then TrimEnd(ws, s[..|s| - 1]) else s
  }

  /** `lstrip` drops the longest whitespace prefix: what remains does not start with whitespace. */
  lemma {:induction false} TrimStartShape(ws: char -> bool, s: string)
    ensures |TrimStart(ws, s)| <= |s| && TrimStart(ws, s) == s[|s| - |TrimStart(ws, s)|..]
    ensures TrimStart(ws, s) != [] ==> !ws(TrimStart(ws, s)[0])
    ensures forall i :: 0 <= i < |s| - |TrimStart(ws, s)| ==> ws(s[i])
    decreases |s|
  {
    if s != [] && ws(s[0]) {
      TrimStartShape(ws, s[1..]);
    }
  }

  /** `rstrip` drops the longest whitespace suffix: what remains does not end with whitespace. */
  lemma {:induction false} TrimEndShape(ws: char -> bool, s: string)
    ensures |TrimEnd(ws, s)| <= |s| && TrimEnd(ws, s) == s[..|TrimEnd(ws, s)|]
    ensures TrimEnd(ws, s) != [] ==> !ws(TrimEnd(ws, s)[|TrimEnd(ws, s)| - 1])
    ensures forall i :: |TrimEnd(ws, s)| <= i < |s| ==> ws(s[i])
    decreases |s|
  {
    if s != [] && ws(s[|s| - 1]) {
      TrimEndShape(ws, s[..|s| - 1]);
    }
  }

  /** Both-sided stripping for the whitespace set `ws`; `Strip(IsSpace, s)` is `s.strip()`. */
  function Strip(ws: char -> bool, s: string): string
  {
    TrimEnd(ws, TrimStart(ws, s))
  }

  /** Stripping returns the slice of `s` between its leading and its trailing whitespace. */
  lemma StripIsSlice(ws: char -> bool, s: string)
    ensures |TrimStart(ws, s)| <= |s|
    ensures |s| - |TrimStart(ws, s)| + |Strip(ws, s)| <= |s|
    ensures Strip(ws, s) == s[|s| - |TrimStart(ws, s)|..|s| - |TrimStart(ws, s)| + |Strip(ws, s)|]
  {
    TrimStartShape(ws, s);
    TrimEndShape(ws, TrimStart(ws, s));
  }

  /** Every character of `s` is whitespace; `BlankIffStripEmpty` shows this is `not s.strip()`. */
  predicate Blank(s: string)
  {
    forall i :: 0 <= i < |s| ==> IsSpace(s[i])
  }

  /** `not s.strip()`, the application's test for "no text", holds exactly for blank strings. */
  lemma BlankIffStripEmpty(s: string)
    ensures Strip(IsSpace, s) == [] <==> Blank(s)
  {
    var t := TrimStart(IsSpace, s);
    TrimStartShape(IsSpace, s);
    TrimEndShape(IsSpace, t);
    var k := |s| - |t|;
    if Strip(IsSpace, s) != [] {
      assert t != [];
      assert s[k] == t[0];
    }
  }

  /** A string that neither starts nor ends with whitespace is left as it is. */
  lemma StripUntouched(ws: char -> bool, s: string)
    requires s != [] ==> !ws(s[0]) && !ws(s[|s| - 1])
    ensures Strip(ws, s) == s
  {
  }

  /** A character absent from `s` is absent from its stripped form. */
  lemma StripKeepsAbsence(ws: char -> bool, s: string, c: char)
    requires forall i :: 0 <= i < |s| ==> s[i] != c
    ensures forall i :: 0 <= i < |Strip(ws, s)| ==> Strip(ws, s)[i] != c
  {
    StripIsSlice(ws, s);
    var a := |s| - |TrimStart(ws, s)|;
    forall i | 0 <= i < |Strip(ws, s)| ensures Strip(ws, s)[i] != c {
      assert Strip(ws, s)[i] == s[a + i];
    }
  }

  /**
   * The digits of a decimal integer as `int()` accepts them: `digit ('_'? digit)*`,
   * that is, single underscores only between two digits.
   */
  predicate DigitGroups(s: string)
    decreases |s|
  {
    |s| > 0 && IsDigit(s[0])
    && (|s| == 1 || DigitGroups(if s[1] == '_' then s[2..] else s[1..]))
  }

  /** The value of a digit string, underscores ignored. */
  function DigitsValue(s: string): nat
    decreases |s|
  {
    if s == [] then 0
    else if IsDigit(s[|s| - 1]) then 10 * DigitsValue(s[..|s| - 1]) + (s[|s| - 1] as int - '0' as int)
    else DigitsValue(s[..|s| - 1])
  }

  /**
   * `int(s)` for a `str` argument and base 10: surrounding `int()` whitespace is
   * skipped, one optional sign, then digit groups.  `None` stands for the `ValueError`.
   */
  function ParseInt(s: string): Option<int>
  {
    var t := Strip(IsIntSpace, s);
    if t != [] && (t[0] == '+' || t[0] == '-') then
      if DigitGroups(t[1..]) then
        var v: int := DigitsValue(t[1..]);
        Some(if t[0] == '-' then -v else v)
      else None
    else if DigitGroups(t) then Some(DigitsValue(t))
    else None
  }

  /** `int()` rejects every string without a decimal digit, the empty string included. */
  lemma ParseIntNeedsDigit(s: string)
    requires forall i :: 0 <= i < |s| ==> !IsDigit(s[i])
    ensures ParseInt(s) == None
  {
    var t := Strip(IsIntSpace, s);
    StripIsSlice(IsIntSpace, s);
    var a := |s| - |TrimStart(IsIntSpace, s)|;
    if |t| > 1 {
      assert t[1] == s[a + 1];
    }
    if t != [] {
      assert t[0] == s[a];
    }
  }

  /**
   * `int()` skips ASCII and non-ASCII whitespace around the number, but not the
   * separator U+001C, which `str.strip()` does remove.
   */
  lemma IntWhitespace()
    ensures ParseInt(" 3\n") == Some(3)
    ensures ParseInt("\U{A0}3") == Some(3)
    ensures ParseInt("\U{1C}3") == None
    ensures Strip(IsSpace, "\U{1C}3") == "3"
  {
    assert Strip(IsIntSpace, " 3\n") == "3" by {
      assert TrimStart(IsIntSpace, " 3\n") == TrimStart(IsIntSpace, "3\n");
      assert TrimEnd(IsIntSpace, "3\n") == TrimEnd(IsIntSpace, "3");
    }
    assert Strip(IsIntSpace, "\U{A0}3") == "3" by {
      assert TrimStart(IsIntSpace, "\U{A0}3") == TrimStart(IsIntSpace, "3");
    }
    assert DigitsValue("3") == 3;
    assert Strip(IsIntSpace, "\U{1C}3") == "\U{1C}3";
  }

  /** Without a `-` in the text, whatever `int()` returns is non-negative. */
  lemma ParseIntNonNegative(s: string)
    requires '-' !in s
    requires ParseInt(s).Some?
    ensures ParseInt(s).value >= 0
  {
    StripKeepsAbsence(IsIntSpace, s, '-');
  }

  function DigitChar(d: nat): (c: char)
    requires d < 10
    ensures IsDigit(c) && c as int - '0' as int == d
  {
    ('0' as int + d) as char
  }

  /** The canonical decimal spelling of `n`, as a user would type a page number. */
  function Decimal(n: nat): (s: string)
    ensures |s| > 0
    ensures forall i :: 0 <= i < |s| ==> IsDigit(s[i])
  {
    if n < 10 then [DigitChar(n)] else Decimal(n / 10) + [DigitChar(n % 10)]
  }

  lemma {:induction false} AllDigitsAreGroups(s: string)
    requires |s| > 0
    requires forall i :: 0 <= i < |s| ==> IsDigit(s[i])
    ensures DigitGroups(s)
    decreases |s|
  {
    if |s| > 1 {
      AllDigitsAreGroups(s[1..]);
    }
  }

  lemma {:induction false} DecimalValue(n: nat)
    ensures DigitsValue(Decimal(n)) == n
  {
    if n >= 10 {
      DecimalValue(n / 10);
      var s := Decimal(n);
      assert s[..|s| - 1] == Decimal(n / 10);
    }
  }

  /** `int()` reads back the canonical decimal spelling of every natural number. */
  lemma ParseIntDecimal(n: nat)
    ensures ParseInt(Decimal(n)) == Some(n)
  {
    var s := Decimal(n);
    StripUntouched(IsIntSpace, s);
    assert s[0] != '+' && s[0] != '-';
    AllDigitsAreGroups(s);
    DecimalValue(n);
  }

  /** The number of occurrences of `c` in `s`. */
  function Count(s: string, c: char): (n: nat)
    ensures n == 0 <==> c !in s
    decreases |s|
  {
    if s == [] then 0
    else
      assert s == [s[0]] + s[1..];
      (if s[0] == c then 1 else 0) + Count(s[1..], c)
  }

  /** `s.split(sep)` for a one-character separator: one part more than there are separators. */
  function Split(s: string, sep: char): (parts: seq<string>)
    ensures |parts| == Count(s, sep) + 1
    decreases |s|
  {
    if s == [] then [[]]
    else
      assert s == [s[0]] + s[1..];
      var rest := Split(s[1..], sep);
      if s[0] == sep then [[]] + rest
      else [[s[0]] + rest[0]] + rest[1..]
  }

  /** The parts hold no separator, and every character of a part occurs in the split string. */
  lemma {:induction false} SplitParts(s: string, sep: char)
    ensures forall k :: 0 <= k < |Split(s, sep)| ==> sep !in Split(s, sep)[k]
    ensures forall k, c :: 0 <= k < |Split(s, sep)| && c in Split(s, sep)[k] ==> c in s
    decreases |s|
  {
    if s != [] {
      SplitParts(s[1..], sep);
      assert s == [s[0]] + s[1..];
      var rest := Split(s[1..], sep);
      var parts := Split(s, sep);
      forall k, c | 0 <= k < |parts| && c in parts[k] ensures c in s && c != sep {
        if s[0] == sep {
          if k > 0 { assert parts[k] == rest[k - 1]; }
        } else if k == 0 {
          assert parts[0] == [s[0]] + rest[0];
        } else {
          assert parts[k] == rest[k];
        }
      }
    }
  }

  /** `sep.join(parts)`. */
  function Join(parts: seq<string>, sep: char): string
  {
    if parts == [] then []
    else if |parts| == 1 then parts[0]
    else parts[0] + [sep] + Join(parts[1..], sep)
  }

  /** One step of the split: the first character either ends the first part or joins it. */
  lemma SplitCons(c: char, t: string, sep: char)
    ensures Split([c] + t, sep) ==
      if c == sep then [[]] + Split(t, sep)
      else [[c] + Split(t, sep)[0]] + Split(t, sep)[1..]
  {
    assert ([c] + t)[1..] == t;
  }

  /** Joining the parts again gives back the split string. */
  lemma {:induction false} SplitJoin(s: string, sep: char)
    ensures Join(Split(s, sep), sep) == s
    decreases |s|
  {
    if s != [] {
      var c, t := s[0], s[1..];
      assert s == [c] + t;
      SplitJoin(t, sep);
      SplitCons(c, t, sep);
      if c == sep {
        JoinCons([], Split(t, sep), sep);
      } else {
        JoinPrepend(c, Split(t, sep), sep);
      }
    }
  }

  /** Joining a part in front of at least one more part puts a separator between them. */
  lemma JoinCons(p: string, ps: seq<string>, sep: char)
    requires ps != []
    ensures Join([p] + ps, sep) == p + [sep] + Join(ps, sep)
  {
    assert ([p] + ps)[1..] == ps;
  }

  /** A character put in front of the first part comes out in front of the joined string. */
  lemma JoinPrepend(c: char, parts: seq<string>, sep: char)
    requires parts != []
    ensures Join([[c] + parts[0]] + parts[1..], sep) == [c] + Join(parts, sep)
  {
    var p, ps := parts[0], parts[1..];
    assert parts == [p] + ps;
    if ps != [] {
      JoinCons([c] + p, ps, sep);
      JoinCons(p, ps, sep);
    }
  }

  /** A string without the separator splits into itself alone. */
  lemma {:induction false} SplitWithoutSep(s: string, sep: char)
    requires sep !in s
    ensures Split(s, sep) == [s]
    decreases |s|
  {
    if s != [] {
      SplitWithoutSep(s[1..], sep);
      assert [s[0]] + s[1..] == s;
    }
  }

  /** The first separator ends the first part. */
  lemma {:induction false} SplitAtFirst(x: string, sep: char, y: string)
    requires sep !in x
    ensures Split(x + [sep] + y, sep) == [x] + Split(y, sep)
    decreases |x|
  {
    if x == [] {
      assert x + [sep] + y == [sep] + y;
      SplitCons(sep, y, sep);
    } else {
      var c, x' := x[0], x[1..];
      assert x == [c] + x';
      assert x + [sep] + y == [c] + (x' + [sep] + y);
      SplitAtFirst(x', sep, y);
      SplitCons(c, x' + [sep] + y, sep);
    }
  }

  /** `"".join(xs)`: the strings one after the other, with nothing in between. */
  function Flatten(xs: seq<string>): string
  {
    if xs == [] then [] else xs[0] + Flatten(xs[1..])
  }

  lemma {:induction false} FlattenSnoc(xs: seq<string>, x: string)
    ensures Flatten(xs + [x]) == Flatten(xs) + x
  {
    if xs != [] {
      assert (xs + [x])[1..] == xs[1..] + [x];
      FlattenSnoc(xs[1..], x);
    }
  }
}
