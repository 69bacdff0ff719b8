/** The time-ago component's helpers: the formatter that words an elapsed
    time ("3 minutes ago"), and the test of whether a new date may differ
    from the shown one. Values and dates are integers; a `Date` is an
    object whose `valueOf()` is its millisecond count. */
module TimeAgo {
  import opened Wrappers
  import opened JsText
  import opened JsValue

  /** The unit as printed: with an 's' unless the value is exactly 1. */
  function UnitWord(value: int, unit: string): (r: string)
    ensures value == 1 ==> r == unit
    ensures value != 1 ==> r == unit + "s"
  {
    if value != 1 then unit + "s" else unit
  }

  /** `timeago_formatter(value, unit, suffix)`. */
  function TimeagoFormatter(value: int, unit: string, suffix: string): string
  {
    if value == 0 then "now"
    else if unit == "second" then "less than a minute " + suffix
    else IntToString(value) + " " + UnitWord(value, unit) + " " + suffix
  }

  /** A zero value reads "now", seconds read "less than a minute", and
      every other text ends with a space and the suffix. */
  lemma FormatterCases(value: int, unit: string, suffix: string)
    ensures value == 0 ==> TimeagoFormatter(value, unit, suffix) == "now"
    ensures value != 0 && unit == "second" ==> TimeagoFormatter(value, unit, suffix) == "less than a minute " + suffix
    ensures value != 0 ==> EndsWith(TimeagoFormatter(value, unit, suffix), " " + suffix)
  {
    if value != 0 && unit == "second" {
      assert "less than a minute " + suffix == "less than a minute" + " " + suffix;
      EndsWithSpaced("less than a minute", suffix);
    } else if value != 0 {
      EndsWithSpaced(IntToString(value) + " " + UnitWord(value, unit), suffix);
    }
  }

  /** A text that ends with a space and the suffix ends with them. */
  lemma EndsWithSpaced(head: string, suffix: string)
    ensures EndsWith(head + " " + suffix, " " + suffix)
  {
    var t := head + " " + suffix;
    assert t[|head|..] == " " + suffix;
  }

  /** `String(n)` holds no space. */
  lemma IntToStringHasNoSpace(n: int)
    ensures ' ' !in IntToString(n)
  {
    var s := IntToString(n);
    if n < 0 {
      assert s == "-" + NatToString(-n);
      assert forall i :: 1 <= i < |s| ==> s[i] == NatToString(-n)[i - 1];
    }
  }

  /** The unit word holds a space only if the unit does. */
  lemma UnitWordHasNoSpace(value: int, unit: string)
    requires ' ' !in unit
    ensures ' ' !in UnitWord(value, unit)
  {
    if value != 1 {
      var word := unit + "s";
      assert forall i :: 0 <= i < |unit| ==> word[i] == unit[i];
      assert word[|unit|] == 's';
    }
  }

  /** The words of "number unit suffix". */
  lemma WordsOfPhrase(number: string, word: string, suffix: string)
    requires ' ' !in number && ' ' !in word
    ensures Split(number + " " + word + " " + suffix, ' ') == [number, word] + Split(suffix, ' ')
  {
    SplitAppend(word, ' ', suffix);
    SplitAppend(number, ' ', word + " " + suffix);
    assert number + " " + word + " " + suffix == number + [' '] + (word + [' '] + suffix);
  }

  /** For a unit of one word, splitting the text on spaces gives the number,
      which reads back as the value, then the unit, with an 's' exactly
      when the value is not 1, then the words of the suffix. */
  lemma FormatterWords(value: int, unit: string, suffix: string)
    requires value != 0 && unit != "second" && ' ' !in unit
    ensures var words := Split(TimeagoFormatter(value, unit, suffix), ' ');
      && |words| >= 3
      && ParseInt(words[0]) == Some(value)
      && words[1] == UnitWord(value, unit)
      && words[2..] == Split(suffix, ' ')
      && (words[1] == unit <==> value == 1)
  {
    var number, word := IntToString(value), UnitWord(value, unit);
    IntToStringHasNoSpace(value);
    UnitWordHasNoSpace(value, unit);
    WordsOfPhrase(number, word, suffix);
    ParseIntOfIntToString(value);
    assert |unit + "s"| != |unit|;
  }

  // ---------------------------------------------------------------------
  // is_different_date

  /** `is_different_date(date0, date1)`. */
  predicate IsDifferentDate(date0: Value, date1: Value)
  {
    if TypeOf(date0) != TypeOf(date1) then true
    else if IsNullish(date0) || IsNullish(date1) || TypeOf(date0) != "object" || TypeOf(date1) != "object" then
      !StrictEq(date0, date1)
    else date0.time - date1.time != 0
  }

  /** Two dates denote the same moment: two `Date` objects with the same
      millisecond count, or the same primitive value. */
  predicate SameDate(date0: Value, date1: Value)
  {
    if date0.Obj? && date1.Obj? then date0.time == date1.time else date0 == date1
  }

  /** The test reports a difference exactly when the two do not denote the
      same moment: distinct `Date` objects holding the same time count as
      unchanged, and null is never the same as a date. */
  lemma IsDifferentDateIffNotSame(date0: Value, date1: Value)
    ensures IsDifferentDate(date0, date1) <==> !SameDate(date0, date1)
  {
  }

  /** The test is symmetric. */
  lemma IsDifferentDateSymmetric(date0: Value, date1: Value)
    ensures IsDifferentDate(date0, date1) == IsDifferentDate(date1, date0)
  {
    IsDifferentDateIffNotSame(date0, date1);
    IsDifferentDateIffNotSame(date1, date0);
  }
}
