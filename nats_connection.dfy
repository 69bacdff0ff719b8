/** Two helpers of the browser's messaging connection: reading a version
    number out of the server's version text with the pattern
    `(\d+).(\d+).(\d+)`, and removing repeated project ids (first
    occurrence kept) when the connection is created. */
module NatsConnection {
  import opened Wrappers
  import opened JsText

  datatype SemVer = SemVer(major: nat, minor: nat, micro: nat)

  // ---------------------------------------------------------------------
  // The pattern (\d+).(\d+).(\d+)

  /** `\d`: an ASCII decimal digit. */
  predicate IsDigit(c: char)
  {
    '0' <= c <= '9'
  }

  /** The code points `.` does not match without the `s` flag. */
  predicate IsLineTerminator(c: char)
  {
    c == '\n' || c == '\r' || c == '\U{2028}' || c == '\U{2029}'
  }

  /** What the pattern accepts between two digit groups: as written, `.`
      matches any character but a line terminator; `\.` would match only a
      dot. */
  datatype Separator = AnyChar | LiteralDot

  predicate SeparatorMatches(sep: Separator, c: char)
  {
    match sep
    case AnyChar => !IsLineTerminator(c)
    case LiteralDot => c == '.'
  }

  /** The length of the run of digits starting at `j`. */
  function RunLen(s: string, j: nat): (n: nat)
    requires j <= |s|
    ensures j + n <= |s|
    decreases |s| - j
  {
    if j == |s| || !IsDigit(s[j]) then 0 else 1 + RunLen(s, j + 1)
  }

  /** `s[j..j + n]` is made of digits. */
  predicate Digits(s: string, j: nat, n: nat)
  {
    j + n <= |s| && forall k :: j <= k < j + n ==> IsDigit(s[k])
  }

  /** The digits that start at `j` are exactly the prefixes of its run. */
  lemma {:induction false} DigitsIffWithinRun(s: string, j: nat, n: nat)
    requires j <= |s|
    ensures Digits(s, j, n) <==> n <= RunLen(s, j)
    decreases |s| - j
  {
    if j < |s| && IsDigit(s[j]) && n > 0 {
      DigitsIffWithinRun(s, j + 1, n - 1);
      if Digits(s, j + 1, n - 1) {
        assert Digits(s, j, n);
      }
    }
  }

  /** The pattern matches at `i` with groups of `a`, `b` and `c` digits. */
  predicate IsMatch(s: string, i: nat, a: nat, b: nat, c: nat, sep: Separator)
  {
    a >= 1 && b >= 1 && c >= 1 && i + a + b + c + 2 <= |s|
    && Digits(s, i, a) && SeparatorMatches(sep, s[i + a])
    && Digits(s, i + a + 1, b) && SeparatorMatches(sep, s[i + a + 1 + b])
    && Digits(s, i + a + b + 2, c)
  }

  /** `(a, b, c)` comes no later than `(a', b', c')` in the order the greedy
      groups are tried: longer first groups first, then longer second, then
      longer third. */
  predicate TriedNoLater(a: nat, b: nat, c: nat, a': nat, b': nat, c': nat)
  {
    a > a' || (a == a' && (b > b' || (b == b' && c >= c')))
  }

  /** The backtracking over the second group, which starts at `j`, from
      `b` digits down; the third group takes its whole run. */
  function TrySecond(s: string, j: nat, b: nat, sep: Separator): Option<(nat, nat)>
  {
    if b == 0 then None
    else
      var k := j + b;
      if k < |s| && SeparatorMatches(sep, s[k]) && RunLen(s, k + 1) >= 1 then Some((b, RunLen(s, k + 1)))
      else TrySecond(s, j, b - 1, sep)
  }

  /** The backtracking over the first group, which starts at `i`, from `a`
      digits down. */
  function TryFirst(s: string, i: nat, a: nat, sep: Separator): Option<(nat, nat, nat)>
  {
    if a == 0 then None
    else if i + a < |s| && SeparatorMatches(sep, s[i + a]) then
      match TrySecond(s, i + a + 1, RunLen(s, i + a + 1), sep)
      case Some((b, c)) => Some((a, b, c))
      case None => TryFirst(s, i, a - 1, sep)
    else TryFirst(s, i, a - 1, sep)
  }

  /** The match the pattern finds at `i`, if any. */
  function MatchAt(s: string, i: nat, sep: Separator): Option<(nat, nat, nat)>
    requires i <= |s|
  {
    TryFirst(s, i, RunLen(s, i), sep)
  }

  /** A match found scanning from `i`: its start and its group lengths. */
  datatype Found = Found(start: nat, a: nat, b: nat, c: nat)

  /** The leftmost match at or after `i`. */
  function Search(s: string, i: nat, sep: Separator): Option<Found>
    requires i <= |s|
    decreases |s| - i
  {
    match MatchAt(s, i, sep)
    case Some((a, b, c)) => Some(Found(i, a, b, c))
    case None => if i == |s| then None else Search(s, i + 1, sep)
  }

  /** The second-group backtracking finds the first match in the greedy
      order among those with at most `b` digits in the second group, and
      finds none only when there is none. */
  lemma {:induction false} TrySecondFindsFirst(s: string, i: nat, a: nat, b: nat, sep: Separator)
    requires Digits(s, i, a) && a >= 1 && i + a < |s| && SeparatorMatches(sep, s[i + a])
    requires b <= RunLen(s, i + a + 1)
    ensures var r := TrySecond(s, i + a + 1, b, sep);
      && (r.Some? ==> IsMatch(s, i, a, r.value.0, r.value.1, sep))
      && (r.Some? ==> forall b': nat, c': nat :: b' <= b && IsMatch(s, i, a, b', c', sep) ==> TriedNoLater(a, r.value.0, r.value.1, a, b', c'))
      && (r.None? ==> forall b': nat, c': nat :: b' <= b ==> !IsMatch(s, i, a, b', c', sep))
  {
    if b > 0 {
      var j := i + a + 1;
      DigitsIffWithinRun(s, j, b);
      var k := j + b;
      if k < |s| && SeparatorMatches(sep, s[k]) && RunLen(s, k + 1) >= 1 {
        var c := RunLen(s, k + 1);
        DigitsIffWithinRun(s, k + 1, c);
        forall c': nat | IsMatch(s, i, a, b, c', sep) ensures c' <= c {
          DigitsIffWithinRun(s, k + 1, c');
        }
      } else {
        forall c': nat ensures !IsMatch(s, i, a, b, c', sep) {
          if k + 1 <= |s| {
            DigitsIffWithinRun(s, k + 1, c');
          }
        }
        TrySecondFindsFirst(s, i, a, b - 1, sep);
      }
    }
  }

  /** Started from the whole digit run, the second-group backtracking finds
      the first match with a first group of `a` digits, or there is none. */
  lemma SecondFromRun(s: string, i: nat, a: nat, sep: Separator)
    requires Digits(s, i, a) && a >= 1 && i + a < |s| && SeparatorMatches(sep, s[i + a])
    ensures var r := TrySecond(s, i + a + 1, RunLen(s, i + a + 1), sep);
      && (r.Some? ==> IsMatch(s, i, a, r.value.0, r.value.1, sep))
      && (r.Some? ==> forall b': nat, c': nat :: IsMatch(s, i, a, b', c', sep) ==> TriedNoLater(a, r.value.0, r.value.1, a, b', c'))
      && (r.None? ==> forall b': nat, c': nat :: !IsMatch(s, i, a, b', c', sep))
  {
    var j := i + a + 1;
    TrySecondFindsFirst(s, i, a, RunLen(s, j), sep);
    forall b': nat, c': nat | IsMatch(s, i, a, b', c', sep) ensures b' <= RunLen(s, j) {
      DigitsIffWithinRun(s, j, b');
    }
  }

  /** No match has a first group of `a` digits when the character after
      them is not a separator. */
  lemma NoSeparatorNoMatch(s: string, i: nat, a: nat, sep: Separator)
    requires !(i + a < |s| && SeparatorMatches(sep, s[i + a]))
    ensures forall b': nat, c': nat :: !IsMatch(s, i, a, b', c', sep)
  {
  }

  /** `r` is the first match at `i` in the greedy order among those with
      at most `a` digits in the first group, and is `None` only when there
      is no such match. */
  ghost predicate FirstUpTo(s: string, i: nat, a: nat, r: Option<(nat, nat, nat)>, sep: Separator)
  {
    && (r.Some? ==> IsMatch(s, i, r.value.0, r.value.1, r.value.2, sep))
    && (r.Some? ==> forall a': nat, b': nat, c': nat :: a' <= a && IsMatch(s, i, a', b', c', sep) ==> TriedNoLater(r.value.0, r.value.1, r.value.2, a', b', c'))
    && (r.None? ==> forall a': nat, b': nat, c': nat :: a' <= a ==> !IsMatch(s, i, a', b', c', sep))
  }

  /** The first-group backtracking finds the first match in the greedy
      order among those with at most `a` digits in the first group, and
      finds none only when there is none. */
  lemma {:induction false} TryFirstFindsFirst(s: string, i: nat, a: nat, sep: Separator)
    requires i <= |s| && a <= RunLen(s, i)
    ensures FirstUpTo(s, i, a, TryFirst(s, i, a, sep), sep)
  {
    if a > 0 {
      if i + a < |s| && SeparatorMatches(sep, s[i + a]) {
        DigitsIffWithinRun(s, i, a);
        SecondFromRun(s, i, a, sep);
        var t := TrySecond(s, i + a + 1, RunLen(s, i + a + 1), sep);
        if t.None? {
          assert TryFirst(s, i, a, sep) == TryFirst(s, i, a - 1, sep);
          TryFirstFindsFirst(s, i, a - 1, sep);
          FirstGroupShorter(s, i, a, sep, TryFirst(s, i, a - 1, sep));
        } else {
          assert TryFirst(s, i, a, sep) == Some((a, t.value.0, t.value.1));
          FirstGroupLongest(s, i, a, sep, t.value.0, t.value.1);
        }
      } else {
        assert TryFirst(s, i, a, sep) == TryFirst(s, i, a - 1, sep);
        NoSeparatorNoMatch(s, i, a, sep);
        TryFirstFindsFirst(s, i, a - 1, sep);
        FirstGroupShorter(s, i, a, sep, TryFirst(s, i, a - 1, sep));
      }
    }
  }

  /** The first match with a first group of `a` digits comes before every
      match with a shorter first group. */
  lemma FirstGroupLongest(s: string, i: nat, a: nat, sep: Separator, b: nat, c: nat)
    requires IsMatch(s, i, a, b, c, sep)
    requires forall b': nat, c': nat :: IsMatch(s, i, a, b', c', sep) ==> TriedNoLater(a, b, c, a, b', c')
    ensures FirstUpTo(s, i, a, Some((a, b, c)), sep)
  {
  }

  /** When no match has a first group of `a` digits, what holds of the
      first match among shorter first groups holds up to `a`. */
  lemma FirstGroupShorter(s: string, i: nat, a: nat, sep: Separator, r: Option<(nat, nat, nat)>)
    requires a >= 1
    requires forall b': nat, c': nat :: !IsMatch(s, i, a, b', c', sep)
    requires FirstUpTo(s, i, a - 1, r, sep)
    ensures FirstUpTo(s, i, a, r, sep)
  {
  }

  /** The match found at `i` is the first in the greedy order, and none is
      found only when the pattern cannot match at `i`. */
  lemma MatchAtFindsFirst(s: string, i: nat, sep: Separator)
    requires i <= |s|
    ensures var r := MatchAt(s, i, sep);
      && (r.Some? ==> IsMatch(s, i, r.value.0, r.value.1, r.value.2, sep))
      && (r.Some? ==> forall a': nat, b': nat, c': nat :: IsMatch(s, i, a', b', c', sep) ==> TriedNoLater(r.value.0, r.value.1, r.value.2, a', b', c'))
      && (r.None? ==> forall a': nat, b': nat, c': nat :: !IsMatch(s, i, a', b', c', sep))
  {
    TryFirstFindsFirst(s, i, RunLen(s, i), sep);
    forall a': nat, b': nat, c': nat | IsMatch(s, i, a', b', c', sep) ensures a' <= RunLen(s, i) {
      DigitsIffWithinRun(s, i, a');
    }
  }

  /** The search finds the leftmost start at which the pattern matches. */
  lemma {:induction false} SearchFindsLeftmost(s: string, i: nat, sep: Separator)
    requires i <= |s|
    ensures var r := Search(s, i, sep);
      && (r.Some? ==> i <= r.value.start <= |s| && MatchAt(s, r.value.start, sep) == Some((r.value.a, r.value.b, r.value.c)))
      && (r.Some? ==> forall i': nat, a': nat, b': nat, c': nat :: i <= i' < r.value.start ==> !IsMatch(s, i', a', b', c', sep))
      && (r.None? ==> forall i': nat, a': nat, b': nat, c': nat :: i <= i' ==> !IsMatch(s, i', a', b', c', sep))
    decreases |s| - i
  {
    MatchAtFindsFirst(s, i, sep);
    if MatchAt(s, i, sep).None? {
      if i < |s| {
        SearchFindsLeftmost(s, i + 1, sep);
      } else {
        forall i': nat, a': nat, b': nat, c': nat | i < i' ensures !IsMatch(s, i', a', b', c', sep) {
        }
      }
    }
  }

  /** The message of the error thrown when nothing matches. */
  function NotSemVer(s: string): string
  {
    "'" + s + "' is not a semver value"
  }

  /** `parseInt(m[g])` for a group of `n` digits at `j`: the decimal value
      of the group (`ReadGroupIsParseInt`). */
  function ReadGroup(s: string, j: nat, n: nat): nat
    requires j + n <= |s|
  {
    DigitsValue(s[j..j + n], 10)
  }

  /** On a group of digits, `parseInt` reads the group's value. */
  lemma ReadGroupIsParseInt(s: string, j: nat, n: nat)
    requires n >= 1 && Digits(s, j, n)
    ensures ParseInt(s[j..j + n]) == Some(ReadGroup(s, j, n) as int)
  {
    var g := s[j..j + n];
    assert forall t :: 0 <= t < n ==> g[t] == s[j + t];
    ParseIntOfDigits(g);
  }

  /** The version read from the groups of a match. */
  function GroupValues(s: string, i: nat, a: nat, b: nat, c: nat): SemVer
    requires i + a + b + c + 2 <= |s|
  {
    SemVer(ReadGroup(s, i, a), ReadGroup(s, i + a + 1, b), ReadGroup(s, i + a + b + 2, c))
  }

  /** `parseSemVer(s)` for the given separator rule; `None` is the missing
      argument, which defaults to "". */
  function ParseSemVerWith(arg: Option<string>, sep: Separator): (r: Result<SemVer, string>)
  {
    var s := arg.GetOr("");
    match Search(s, 0, sep)
    case None => Failure(NotSemVer(s))
    case Some(Found(i, a, b, c)) =>
      SearchFindsLeftmost(s, 0, sep);
      MatchAtFindsFirst(s, i, sep);
      Success(GroupValues(s, i, a, b, c))
  }

  /** `parseSemVer(s)` as written: `.` matches any character but a line
      terminator. */
  function ParseSemVer(arg: Option<string>): Result<SemVer, string>
  {
    ParseSemVerWith(arg, AnyChar)
  }

  /** `parseSemVer(s)` with the dots escaped, as a version number is
      written. */
  function ParseSemVerStrict(arg: Option<string>): Result<SemVer, string>
  {
    ParseSemVerWith(arg, LiteralDot)
  }

  /** The parser fails exactly when the pattern matches nowhere, and the
      error names the input. */
  lemma ParseFailsIffNoMatch(arg: Option<string>, sep: Separator)
    ensures ParseSemVerWith(arg, sep).Failure? <==>
      forall i: nat, a: nat, b: nat, c: nat :: !IsMatch(arg.GetOr(""), i, a, b, c, sep)
    ensures ParseSemVerWith(arg, sep).Failure? ==>
      ParseSemVerWith(arg, sep).error == NotSemVer(arg.GetOr(""))
  {
    var s := arg.GetOr("");
    SearchFindsLeftmost(s, 0, sep);
    if Search(s, 0, sep).Some? {
      var f := Search(s, 0, sep).value;
      MatchAtFindsFirst(s, f.start, sep);
      assert IsMatch(s, f.start, f.a, f.b, f.c, sep);
    }
  }

  /** Nothing parses out of the empty string or a missing argument. */
  lemma EmptyIsNotSemVer(sep: Separator)
    ensures ParseSemVerWith(None, sep) == Failure("'' is not a semver value")
    ensures ParseSemVerWith(Some(""), sep) == Failure("'' is not a semver value")
  {
    assert NotSemVer("") == "'' is not a semver value";
    assert Search("", 0, sep).None? by {
      assert RunLen("", 0) == 0;
    }
  }

  /** The pattern matches at `i` with groups of `a`, `b` and `c` digits,
      matches nowhere before `i`, and every match at `i` comes no earlier
      in the greedy order. */
  ghost predicate LeftmostGreedy(s: string, i: nat, a: nat, b: nat, c: nat, sep: Separator)
  {
    IsMatch(s, i, a, b, c, sep)
    && (forall i': nat, a': nat, b': nat, c': nat :: i' < i ==> !IsMatch(s, i', a', b', c', sep))
    && (forall a': nat, b': nat, c': nat :: IsMatch(s, i, a', b', c', sep) ==> TriedNoLater(a, b, c, a', b', c'))
  }

  /** A successful parse reads the three groups of the leftmost match, each
      the first in the greedy order at that start. */
  lemma ParseReadsLeftmostGreedyMatch(arg: Option<string>, sep: Separator)
    requires ParseSemVerWith(arg, sep).Success?
    ensures exists i: nat, a: nat, b: nat, c: nat ::
      LeftmostGreedy(arg.GetOr(""), i, a, b, c, sep)
      && ParseSemVerWith(arg, sep).value == GroupValues(arg.GetOr(""), i, a, b, c)
  {
    var s := arg.GetOr("");
    SearchFindsLeftmost(s, 0, sep);
    var f := Search(s, 0, sep).value;
    MatchAtFindsFirst(s, f.start, sep);
    var i, a, b, c := f.start, f.a, f.b, f.c;
    assert LeftmostGreedy(s, i, a, b, c, sep);
    assert ParseSemVerWith(arg, sep).value == GroupValues(s, i, a, b, c);
  }

  // ---------------------------------------------------------------------
  // Round trip

  /** The text of a version number: its three parts joined by dots. */
  function Format(v: SemVer): string
  {
    Dotted(NatToString(v.major), NatToString(v.minor), NatToString(v.micro))
  }

  /** The digit run of a numeral followed by a non-digit is the numeral. */
  lemma RunOfNumeral(s: string, j: nat, x: string)
    requires j + |x| <= |s| && s[j..j + |x|] == x
    requires forall k :: 0 <= k < |x| ==> IsDigit(x[k])
    requires j + |x| == |s| || !IsDigit(s[j + |x|])
    ensures RunLen(s, j) == |x|
  {
    DigitsIffWithinRun(s, j, |x|);
    assert Digits(s, j, |x|) by {
      forall k | j <= k < j + |x| ensures IsDigit(s[k]) {
        assert s[k] == x[k - j];
      }
    }
    DigitsIffWithinRun(s, j, |x| + 1);
  }

  /** `x.y.z`. */
  function Dotted(x: string, y: string, z: string): string
  {
    x + "." + y + "." + z
  }

  /** Where the parts of `x.y.z` lie. */
  lemma DottedPieces(x: string, y: string, z: string)
    ensures |Dotted(x, y, z)| == |x| + |y| + |z| + 2
    ensures Dotted(x, y, z)[0..|x|] == x
    ensures Dotted(x, y, z)[|x|] == '.'
    ensures Dotted(x, y, z)[|x| + 1..|x| + 1 + |y|] == y
    ensures Dotted(x, y, z)[|x| + 1 + |y|] == '.'
    ensures Dotted(x, y, z)[|x| + |y| + 2..|x| + |y| + 2 + |z|] == z
  {
    var s := Dotted(x, y, z);
    assert s == (x + "." + y) + "." + z;
  }

  /** At the start of `x.y.z`, for numerals `x`, `y` and `z`, the pattern
      matches the three numerals whole. */
  lemma DottedMatchesAtStart(x: string, y: string, z: string, sep: Separator)
    requires x != [] && y != [] && z != []
    requires forall k :: 0 <= k < |x| ==> IsDigit(x[k])
    requires forall k :: 0 <= k < |y| ==> IsDigit(y[k])
    requires forall k :: 0 <= k < |z| ==> IsDigit(z[k])
    ensures MatchAt(Dotted(x, y, z), 0, sep) == Some((|x|, |y|, |z|))
  {
    var s := Dotted(x, y, z);
    var p, r := |x|, |x| + |y| + 2;
    DottedPieces(x, y, z);
    RunOfNumeral(s, 0, x);
    RunOfNumeral(s, p + 1, y);
    RunOfNumeral(s, r, z);
    assert TrySecond(s, p + 1, |y|, sep) == Some((|y|, |z|));
  }

  /** Parsing `x.y.z`, for numerals `x`, `y` and `z`, reads their values,
      under either separator rule. */
  lemma ParseDotted(x: string, y: string, z: string, sep: Separator)
    requires x != [] && y != [] && z != []
    requires forall k :: 0 <= k < |x| ==> IsDigit(x[k])
    requires forall k :: 0 <= k < |y| ==> IsDigit(y[k])
    requires forall k :: 0 <= k < |z| ==> IsDigit(z[k])
    ensures ParseSemVerWith(Some(Dotted(x, y, z)), sep)
      == Success(SemVer(DigitsValue(x, 10), DigitsValue(y, 10), DigitsValue(z, 10)))
  {
    var s := Dotted(x, y, z);
    var p, r := |x|, |x| + |y| + 2;
    DottedPieces(x, y, z);
    ReadNumeral(s, 0, x);
    ReadNumeral(s, p + 1, y);
    ReadNumeral(s, r, z);
    SearchDotted(x, y, z, sep);
    var f := Found(0, p, |y|, |z|);
    ParseFound(s, sep, f);
    assert f.start + f.a + 1 == p + 1 && f.start + f.a + f.b + 2 == r;
    assert ParseSemVerWith(Some(s), sep)
      == Success(SemVer(ReadGroup(s, 0, p), ReadGroup(s, p + 1, |y|), ReadGroup(s, r, |z|)));
  }

  /** When the search finds a match, the parse reads its groups. */
  lemma ParseFound(s: string, sep: Separator, f: Found)
    requires Search(s, 0, sep) == Some(f)
    requires f.a >= 1 && f.b >= 1 && f.c >= 1
    requires Digits(s, f.start, f.a) && Digits(s, f.start + f.a + 1, f.b) && Digits(s, f.start + f.a + f.b + 2, f.c)
    ensures ParseSemVerWith(Some(s), sep)
      == Success(SemVer(ReadGroup(s, f.start, f.a), ReadGroup(s, f.start + f.a + 1, f.b), ReadGroup(s, f.start + f.a + f.b + 2, f.c)))
  {
  }

  lemma SearchDotted(x: string, y: string, z: string, sep: Separator)
    requires x != [] && y != [] && z != []
    requires forall k :: 0 <= k < |x| ==> IsDigit(x[k])
    requires forall k :: 0 <= k < |y| ==> IsDigit(y[k])
    requires forall k :: 0 <= k < |z| ==> IsDigit(z[k])
    ensures Search(Dotted(x, y, z), 0, sep) == Some(Found(0, |x|, |y|, |z|))
  {
    DottedMatchesAtStart(x, y, z, sep);
  }

  /** A group holding a numeral reads as the numeral's value. */
  lemma ReadNumeral(s: string, j: nat, x: string)
    requires x != [] && j + |x| <= |s| && s[j..j + |x|] == x
    requires forall k :: 0 <= k < |x| ==> IsDigit(x[k])
    ensures Digits(s, j, |x|) && ReadGroup(s, j, |x|) == DigitsValue(x, 10)
  {
    forall k | j <= k < j + |x| ensures IsDigit(s[k]) {
      assert s[k] == x[k - j];
    }
  }

  /** Parsing the text of a version number gives the version back, under
      either separator rule. */
  lemma ParseFormat(v: SemVer, sep: Separator)
    ensures ParseSemVerWith(Some(Format(v)), sep) == Success(v)
  {
    ParseDotted(NatToString(v.major), NatToString(v.minor), NatToString(v.micro), sep);
  }

  /** As written, a run of five digits reads as a version: "12345" gives
      1.3.5, the second and fourth digits taken as separators. */
  lemma DigitsAsSeparators()
    ensures ParseSemVer(Some("12345")) == Success(SemVer(1, 3, 5))
  {
    var s := "12345";
    assert RunLen(s, 5) == 0;
    assert RunLen(s, 4) == 1;
    assert RunLen(s, 3) == 2;
    assert RunLen(s, 2) == 3;
    assert RunLen(s, 1) == 4;
    assert RunLen(s, 0) == 5;
    assert TrySecond(s, 2, 1, AnyChar) == Some((1, 1));
    assert TrySecond(s, 2, 2, AnyChar) == Some((1, 1));
    assert TrySecond(s, 2, 3, AnyChar) == Some((1, 1));
    assert TryFirst(s, 0, 1, AnyChar) == Some((1, 1, 1));
    assert TrySecond(s, 3, 1, AnyChar) == None;
    assert TrySecond(s, 3, 2, AnyChar) == None;
    assert TryFirst(s, 0, 2, AnyChar) == Some((1, 1, 1));
    assert TrySecond(s, 4, 1, AnyChar) == None;
    assert TryFirst(s, 0, 3, AnyChar) == Some((1, 1, 1));
    assert TrySecond(s, 5, 0, AnyChar) == None;
    assert TryFirst(s, 0, 4, AnyChar) == Some((1, 1, 1));
    assert TryFirst(s, 0, 5, AnyChar) == Some((1, 1, 1));
    assert Search(s, 0, AnyChar) == Some(Found(0, 1, 1, 1));
    assert s[0..1] == "1" && s[2..3] == "3" && s[4..5] == "5";
    assert DigitsValue("1", 10) == 1 && DigitsValue("3", 10) == 3 && DigitsValue("5", 10) == 5 by {
      assert "1"[..0] == "3"[..0] == "5"[..0] == [];
    }
  }

  /** With the dots escaped, the same text is rejected. */
  lemma DigitsAreNotSeparatorsWhenStrict()
    ensures ParseSemVerStrict(Some("12345")).Failure?
  {
    var s := "12345";
    assert forall t :: 0 <= t < |s| ==> s[t] != '.';
    forall i: nat, a: nat, b: nat, c: nat ensures !IsMatch(s, i, a, b, c, LiteralDot) {
      if i + a < |s| {
        assert s[i + a] != '.';
      }
    }
    ParseFailsIffNoMatch(Some(s), LiteralDot);
  }

  // ---------------------------------------------------------------------
  // uniq

  /** `Array.from(new Set(v))`: each element once, at its first
      occurrence. */
  function Uniq(v: seq<string>): (r: seq<string>)
    ensures forall x :: x in r <==> x in v
    ensures forall i, j :: 0 <= i < j < |r| ==> r[i] != r[j]
    ensures |r| <= |v|
  {
    if v == [] then []
    else
      var u := Uniq(v[..|v| - 1]);
      assert forall x :: x in v <==> x in v[..|v| - 1] || x == v[|v| - 1] by {
        assert v == v[..|v| - 1] + [v[|v| - 1]];
      }
      if v[|v| - 1] in u then u else u + [v[|v| - 1]]
  }

  /** The index of the first occurrence of `x`. */
  function FirstIndex(v: seq<string>, x: string): (k: nat)
    requires x in v
    ensures k < |v| && v[k] == x && x !in v[..k]
  {
    if v[0] == x then 0
    else
      var k := FirstIndex(v[1..], x);
      assert v[1..][..k] == v[1..k + 1];
      1 + k
  }

  /** The result lists the elements in the order of their first
      occurrence. */
  lemma {:induction false} UniqFirstOccurrenceOrder(v: seq<string>, i: nat, j: nat)
    requires i < j < |Uniq(v)|
    ensures FirstIndex(v, Uniq(v)[i]) < FirstIndex(v, Uniq(v)[j])
  {
    var n := |v|;
    var w := v[..n - 1];
    var u := Uniq(w);
    var r := Uniq(v);
    assert v == w + [v[n - 1]];
    FirstIndexOfPrefix(w, v, r[i]);
    if j < |u| {
      assert r[i] == u[i] && r[j] == u[j];
      UniqFirstOccurrenceOrder(w, i, j);
      FirstIndexOfPrefix(w, v, r[j]);
    } else {
      assert r[j] == v[n - 1] && r[j] !in w;
      assert FirstIndex(v, r[j]) == n - 1 by {
        assert forall t :: 0 <= t < n - 1 ==> v[t] == w[t];
      }
    }
  }

  lemma FirstIndexOfPrefix(w: seq<string>, v: seq<string>, x: string)
    requires x in w && |w| <= |v| && v[..|w|] == w
    ensures FirstIndex(v, x) == FirstIndex(w, x)
  {
    var k, m := FirstIndex(v, x), FirstIndex(w, x);
    assert forall u :: 0 <= u < |w| ==> v[u] == w[u];
    assert forall u :: 0 <= u < k ==> v[..k][u] == v[u];
    assert forall u :: 0 <= u < m ==> w[..m][u] == w[u];
    assert v[m] == x;
  }

  /** Removing repeats twice is removing them once. */
  lemma UniqIdempotent(v: seq<string>)
    ensures Uniq(Uniq(v)) == Uniq(v)
  {
    UniqOfDistinct(Uniq(v));
  }

  /** A list without repeats is left as it is. */
  lemma {:induction false} UniqOfDistinct(v: seq<string>)
    requires forall i, j :: 0 <= i < j < |v| ==> v[i] != v[j]
    ensures Uniq(v) == v
  {
    if v != [] {
      var w := v[..|v| - 1];
      UniqOfDistinct(w);
      assert v[|v| - 1] !in w;
      assert w + [v[|v| - 1]] == v;
    }
  }

  // ---------------------------------------------------------------------
  // The connection's user

  datatype User = User(accountId: string, projectIds: seq<string>)

  /** The connection keeps the signed-in user with repeated project ids
      removed. The server connection and the permissions cache it also
      holds are not part of this model. */
  class Connection {
    var user: User

    constructor(user: User)
      ensures this.user == User(user.accountId, Uniq(user.projectIds))
    {
      this.user := User(user.accountId, Uniq(user.projectIds));
    }
  }
}
