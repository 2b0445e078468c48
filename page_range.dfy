/**
 * The page-range box of the sidebar: the text the user types ("3", "2-8" or nothing)
 * becomes an optional zero-based, half-open page interval, or a `ValueError`.
 */
module PageRanges {
  import opened Wrappers
  import opened PyText

  /** The tuple `pages = (start, stop)`: pages `start <= i < stop`, counted from zero. */
  datatype PageRange = PageRange(start: int, stop: int)

  /** Why `int()` or the two-name unpacking raised `ValueError`. */
  datatype RangeError =
    | NotAnInteger(part: string)  // `int(part)` raised
    | TooManyValues               // `first, last = ...` got a third value

  /**
   * `first, last = map(int, parts)`: the unpacking consumes the lazy `map` one
   * value at a time, so `int` runs on the first, the second and (when there is
   * one) the third part, in that order, before a third value is refused.
   */
  function UnpackTwo(parts: seq<string>): (r: Result<(int, int), RangeError>)
    requires |parts| >= 2
    ensures r.Ok? <==> |parts| == 2 && ParseInt(parts[0]).Some? && ParseInt(parts[1]).Some?
    ensures r.Ok? ==> Some(r.value.0) == ParseInt(parts[0]) && Some(r.value.1) == ParseInt(parts[1])
    ensures ParseInt(parts[0]).None? ==> r == Err(NotAnInteger(parts[0]))
    ensures ParseInt(parts[0]).Some? && ParseInt(parts[1]).None? ==> r == Err(NotAnInteger(parts[1]))
    ensures ParseInt(parts[0]).Some? && ParseInt(parts[1]).Some? && |parts| > 2
            ==> r == Err(if ParseInt(parts[2]).None? then NotAnInteger(parts[2]) else TooManyValues)
  {
    match ParseInt(parts[0])
    case None => Err(NotAnInteger(parts[0]))
    case Some(first) =>
      match ParseInt(parts[1])
      case None => Err(NotAnInteger(parts[1]))
      case Some(last) =>
        if |parts| == 2 then Ok((first, last))
        else if ParseInt(parts[2]).None? then Err(NotAnInteger(parts[2]))
        else Err(TooManyValues)
  }

  /**
   * The parse block: empty input means no restriction, `"n"` means page n alone,
   * `"a-b"` means pages a to b inclusive.
   */
  function ParsePageRange(input: string): (r: Result<Option<PageRange>, RangeError>)
    ensures r == Ok(None) <==> input == []
    ensures r.Ok? && r.value.Some? && '-' !in input ==> r.value.value.stop == r.value.value.start + 1
    ensures input != [] && '-' !in input ==> (r.Err? <==> ParseInt(input).None?)
    ensures r.Err? && '-' !in input ==> r.error == NotAnInteger(input)
    ensures '-' in input ==> (r.Err? <==> UnpackTwo(Split(input, '-')).Err?)
    ensures r.Err? && '-' in input ==> r.error == UnpackTwo(Split(input, '-')).error
  {
    if input == [] then Ok(None)
    else if '-' in input then
      match UnpackTwo(Split(input, '-'))
      case Err(e) => Err(e)
      case Ok((first, last)) => Ok(Some(PageRange(first - 1, last)))
    else
      match ParseInt(input)
      case None => Err(NotAnInteger(input))
      case Some(n) => Ok(Some(PageRange(n - 1, n)))
  }

  /** `"n"` selects the single zero-based page `n - 1`. */
  lemma ParseSinglePage(n: nat)
    ensures ParsePageRange(Decimal(n)) == Ok(Some(PageRange(n - 1, n)))
  {
    ParseIntDecimal(n);
    assert '-' !in Decimal(n);
  }

  /** Two parts without a dash that `int()` reads as `a` and `b` make `"a-b"` the interval `[a - 1, b)`. */
  lemma ParseTwoParts(x: string, y: string, a: int, b: int)
    requires '-' !in x && '-' !in y
    requires ParseInt(x) == Some(a) && ParseInt(y) == Some(b)
    ensures ParsePageRange(x + "-" + y) == Ok(Some(PageRange(a - 1, b)))
  {
    var s := x + "-" + y;
    assert s == x + ['-'] + y;
    assert s != [] && '-' in s by {
      assert s[|x|] == '-';
    }
    assert Split(s, '-') == [x, y] by {
      SplitAtFirst(x, '-', y);
      SplitWithoutSep(y, '-');
    }
  }

  /** `"a-b"` selects the zero-based, half-open interval `[a - 1, b)`. */
  lemma ParsePageSpan(a: nat, b: nat)
    ensures ParsePageRange(Decimal(a) + "-" + Decimal(b)) == Ok(Some(PageRange(a - 1, b)))
  {
    assert '-' !in Decimal(a) && '-' !in Decimal(b);
    ParseIntDecimal(a);
    ParseIntDecimal(b);
    ParseTwoParts(Decimal(a), Decimal(b), a, b);
  }

  /** Non-empty input without a single digit (`"abc"`, `"-"`, `" "`) is rejected. */
  lemma RejectsWithoutDigits(input: string)
    requires input != []
    requires forall i :: 0 <= i < |input| ==> !IsDigit(input[i])
    ensures ParsePageRange(input).Err?
  {
    if '-' in input {
      var parts := Split(input, '-');
      SplitParts(input, '-');
      forall k, i | 0 <= k < |parts| && 0 <= i < |parts[k]| ensures !IsDigit(parts[k][i]) {
        var c := parts[k][i];
        assert c in parts[k];
        assert c in input;
        var j :| 0 <= j < |input| && input[j] == c;
      }
      ParseIntNeedsDigit(parts[0]);
    } else {
      ParseIntNeedsDigit(input);
    }
  }

  /** A leading `-` (`"-5"`) leaves the first part empty, which `int()` rejects. */
  lemma RejectsLeadingDash(input: string)
    requires input != [] && input[0] == '-'
    ensures ParsePageRange(input) == Err(NotAnInteger([]))
  {
    assert Split(input, '-')[0] == [];
    ParseIntNeedsDigit([]);
  }

  /** Two or more dashes (`"1-2-3"`) give at least three parts, which the unpacking rejects. */
  lemma RejectsExtraDashes(input: string)
    requires Count(input, '-') >= 2
    ensures ParsePageRange(input).Err?
  {
    assert input != [] && '-' in input;
    assert |Split(input, '-')| >= 3;
  }

  /**
   * A parsed range never has a negative end and starts at page -1 at the earliest:
   * no part can carry a minus sign, because every `-` separates parts.
   */
  lemma ParsedRangeBounds(input: string)
    requires ParsePageRange(input).Ok? && ParsePageRange(input).value.Some?
    ensures ParsePageRange(input).value.value.start >= -1
    ensures ParsePageRange(input).value.value.stop >= 0
  {
    if '-' in input {
      var parts := Split(input, '-');
      SplitParts(input, '-');
      ParseIntNonNegative(parts[0]);
      ParseIntNonNegative(parts[1]);
    } else {
      ParseIntNonNegative(input);
    }
  }

  /** `"\U{1C}3"` is refused: `int()` does not skip the separator U+001C. */
  lemma RejectsFileSeparator()
    ensures ParsePageRange("\U{1C}3") == Err(NotAnInteger("\U{1C}3"))
  {
    IntWhitespace();
    assert '-' !in "\U{1C}3";
  }

  /** `"5-2"` is accepted as the reversed interval `(4, 2)`, not refused. */
  lemma ReversedRangeAccepted()
    ensures ParsePageRange("5-2") == Ok(Some(PageRange(4, 2)))
  {
    assert Decimal(5) == "5" && Decimal(2) == "2";
    ParseIntDecimal(5);
    ParseIntDecimal(2);
    ParseTwoParts("5", "2", 5, 2);
    assert "5" + "-" + "2" == "5-2";
  }

  /** `"0"` is accepted as `(-1, 0)`, not refused. */
  lemma PageZeroAccepted()
    ensures ParsePageRange("0") == Ok(Some(PageRange(-1, 0)))
  {
    ParseSinglePage(0);
    assert Decimal(0) == "0";
  }
}
