/** The proxy's cookie filter: before a request goes on to a project, the
    remember-me cookie and the API-key cookie are taken out of its Cookie
    header, so nothing running in a project sees a user's credentials.

    The two cookie names are parameters (`rememberName`, `apiName`); their
    values live in a module outside this model. */
module StripCookie {
  import opened Wrappers
  import opened JsText

  /** What the filter returns: the header left for the project (`None`
      when no header was given) and the credentials it took out. */
  datatype Stripped = Stripped(cookie: Option<string>, rememberMe: Option<string>, apiKey: Option<string>)

  /** A header segment `name=value...` whose value is missing: reading it
      throws. */
  datatype StripError = MissingValue(segment: string)

  /** State of the loop: the segments kept so far and the credentials seen. */
  datatype Acc = Acc(kept: seq<string>, rememberMe: Option<string>, apiKey: Option<string>)

  /** One `;`-separated segment of the header, with the trimmed text
      before its first `=` and the trimmed text between its first and
      second `=` (`None` when it has no `=`). */
  datatype Segment = Segment(text: string, name: string, value: Option<string>)

  function Parse(c: string): (s: Segment)
    ensures s.text == c
  {
    var z := Split(c, '=');
    Segment(c, Trim(z[0]), if |z| < 2 then None else Some(Trim(z[1])))
  }

  function ParseAll(cs: seq<string>): (r: seq<Segment>)
    ensures |r| == |cs|
  {
    seq(|cs|, i requires 0 <= i < |cs| => Parse(cs[i]))
  }

  /** Whether the filter takes a segment out. */
  predicate Credential(s: Segment, rememberName: string, apiName: string)
  {
    s.name == rememberName || s.name == apiName
  }

  /** The loop over the first segments: a remember-me segment sets the
      remember-me value, otherwise an API-key segment sets the API key,
      otherwise the segment is kept; a credential without a value throws. */
  function StripSegments(segs: seq<Segment>, rememberName: string, apiName: string): Result<Acc, StripError>
  {
    if segs == [] then Success(Acc([], None, None))
    else Step(StripSegments(segs[..|segs| - 1], rememberName, apiName), segs[|segs| - 1], rememberName, apiName)
  }

  /** One pass of the loop body. */
  function Step(prev: Result<Acc, StripError>, c: Segment, rememberName: string, apiName: string): Result<Acc, StripError>
  {
    if prev.Failure? then prev
    else if Credential(c, rememberName, apiName) && c.value.None? then Failure(MissingValue(c.text))
    else if c.name == rememberName then Success(prev.value.(rememberMe := c.value))
    else if c.name == apiName then Success(prev.value.(apiKey := c.value))
    else Success(prev.value.(kept := prev.value.kept + [c.text]))
  }

  /** What `stripRememberMeCookie` returns or throws. */
  function StripSpec(cookie: Option<string>, rememberName: string, apiName: string): Result<Stripped, StripError>
  {
    if cookie.None? then Success(Stripped(None, None, None))
    else
      var acc := StripSegments(ParseAll(Split(cookie.value, ';')), rememberName, apiName);
      if acc.Failure? then Failure(acc.error)
      else Success(Stripped(Some(Join(acc.value.kept, ';')), acc.value.rememberMe, acc.value.apiKey))
  }

  /** `stripRememberMeCookie(cookie)`. */
  method StripRememberMeCookie(cookie: Option<string>, rememberName: string, apiName: string)
    returns (r: Result<Stripped, StripError>)
    ensures r == StripSpec(cookie, rememberName, apiName)
  {
    if cookie.None? {
      return Success(Stripped(None, None, None));
    }
    var segs := Split(cookie.value, ';');
    ghost var parsed := ParseAll(segs);
    var v: seq<string> := [];
    var rememberMe: Option<string> := None;
    var apiKey: Option<string> := None;
    for i := 0 to |segs|
      invariant StripSegments(parsed[..i], rememberName, apiName) == Success(Acc(v, rememberMe, apiKey))
    {
      var c := segs[i];
      var seg := Parse(c);
      assert parsed[..i + 1][..i] == parsed[..i] && parsed[..i + 1][i] == seg;
      assert StripSegments(parsed[..i + 1], rememberName, apiName)
          == Step(Success(Acc(v, rememberMe, apiKey)), seg, rememberName, apiName);
      if seg.name == rememberName || seg.name == apiName {
        if seg.value.None? {
          assert StripSegments(parsed[..i + 1], rememberName, apiName) == Failure(MissingValue(c));
          FailurePersists(parsed, i + 1, rememberName, apiName);
          return Failure(MissingValue(c));
        }
        if seg.name == rememberName {
          rememberMe := seg.value;
        } else {
          apiKey := seg.value;
        }
      } else {
        v := v + [c];
      }
    }
    assert parsed[..|segs|] == parsed;
    return Success(Stripped(Some(Join(v, ';')), rememberMe, apiKey));
  }

  /** Once the loop has thrown, the later segments do not matter. */
  lemma {:induction false} FailurePersists(segs: seq<Segment>, n: nat, rememberName: string, apiName: string)
    requires n <= |segs| && StripSegments(segs[..n], rememberName, apiName).Failure?
    ensures StripSegments(segs, rememberName, apiName) == StripSegments(segs[..n], rememberName, apiName)
  {
    if n < |segs| {
      assert segs[..|segs| - 1][..n] == segs[..n];
      FailurePersists(segs[..|segs| - 1], n, rememberName, apiName);
    } else {
      assert segs[..n] == segs;
    }
  }

  // ---------------------------------------------------------------------
  // properties

  /** The texts of the segments that are not credentials, in their
      original order. */
  function Others(segs: seq<Segment>, rememberName: string, apiName: string): seq<string>
  {
    if segs == [] then []
    else if Credential(segs[0], rememberName, apiName) then Others(segs[1..], rememberName, apiName)
    else [segs[0].text] + Others(segs[1..], rememberName, apiName)
  }

  lemma {:induction false} OthersAppend(a: seq<Segment>, b: seq<Segment>, rememberName: string, apiName: string)
    ensures Others(a + b, rememberName, apiName) == Others(a, rememberName, apiName) + Others(b, rememberName, apiName)
  {
    if a == [] {
      assert a + b == b;
    } else {
      assert (a + b)[1..] == a[1..] + b;
      OthersAppend(a[1..], b, rememberName, apiName);
    }
  }

  /** The filter fails exactly when some credential segment has no `=`. */
  lemma {:induction false} StripFailsIff(segs: seq<Segment>, rememberName: string, apiName: string)
    ensures StripSegments(segs, rememberName, apiName).Failure? <==>
      exists i :: 0 <= i < |segs| && Credential(segs[i], rememberName, apiName) && segs[i].value.None?
  {
    if segs != [] {
      var n := |segs|;
      var prefix := segs[..n - 1];
      StripFailsIff(prefix, rememberName, apiName);
      assert forall i :: 0 <= i < n - 1 ==> segs[i] == prefix[i];
    }
  }

  /** The segments kept are the non-credential ones, unchanged and in
      order. */
  lemma {:induction false} KeptAreOthers(segs: seq<Segment>, rememberName: string, apiName: string)
    requires StripSegments(segs, rememberName, apiName).Success?
    ensures StripSegments(segs, rememberName, apiName).value.kept == Others(segs, rememberName, apiName)
  {
    if segs != [] {
      var n := |segs|;
      var c := segs[n - 1];
      KeptAreOthers(segs[..n - 1], rememberName, apiName);
      OthersAppend(segs[..n - 1], [c], rememberName, apiName);
      assert segs[..n - 1] + [c] == segs;
      assert [c][1..] == [];
    }
  }

  /** A successful loop over a non-empty list: the prefix succeeded, and
      the last segment set the remember-me value or the API key, or left
      both as they were. */
  lemma StripLast(segs: seq<Segment>, rememberName: string, apiName: string)
    requires segs != [] && StripSegments(segs, rememberName, apiName).Success?
    ensures var before, c := StripSegments(segs[..|segs| - 1], rememberName, apiName), segs[|segs| - 1];
      var after := StripSegments(segs, rememberName, apiName).value;
      && before.Success?
      && after.rememberMe == (if RememberMeSegment(c, rememberName) then c.value else before.value.rememberMe)
      && after.apiKey == (if ApiKeySegment(c, rememberName, apiName) then c.value else before.value.apiKey)
  {
  }

  /** A segment the loop reads as the remember-me value. */
  predicate RememberMeSegment(s: Segment, rememberName: string)
  {
    s.name == rememberName
  }

  /** There is no remember-me value exactly when no segment has that name. */
  lemma {:induction false} NoRememberMeIff(segs: seq<Segment>, rememberName: string, apiName: string)
    requires StripSegments(segs, rememberName, apiName).Success?
    ensures StripSegments(segs, rememberName, apiName).value.rememberMe.None?
      <==> forall i :: 0 <= i < |segs| ==> !RememberMeSegment(segs[i], rememberName)
  {
    if segs != [] {
      var n := |segs|;
      var prefix := segs[..n - 1];
      StripLast(segs, rememberName, apiName);
      NoRememberMeIff(prefix, rememberName, apiName);
      assert forall i :: 0 <= i < n - 1 ==> segs[i] == prefix[i];
    }
  }

  /** The remember-me value, when there is one, is the value of the last
      remember-me segment. */
  lemma {:induction false} LastRememberMeWins(segs: seq<Segment>, rememberName: string, apiName: string)
    requires StripSegments(segs, rememberName, apiName).Success?
    ensures var rm := StripSegments(segs, rememberName, apiName).value.rememberMe;
      rm.Some? ==> exists j :: (0 <= j < |segs| && RememberMeSegment(segs[j], rememberName) && rm == segs[j].value
                                && forall i :: j < i < |segs| ==> !RememberMeSegment(segs[i], rememberName))
  {
    var rm := StripSegments(segs, rememberName, apiName).value.rememberMe;
    if segs != [] && rm.Some? {
      var n := |segs|;
      var prefix, c := segs[..n - 1], segs[n - 1];
      StripLast(segs, rememberName, apiName);
      if RememberMeSegment(c, rememberName) {
        assert RememberMeSegment(segs[n - 1], rememberName) && rm == segs[n - 1].value;
      } else {
        LastRememberMeWins(prefix, rememberName, apiName);
        var j :| 0 <= j < |prefix| && RememberMeSegment(prefix[j], rememberName) && rm == prefix[j].value
          && forall i :: j < i < |prefix| ==> !RememberMeSegment(prefix[i], rememberName);
        assert forall i :: j < i < n - 1 ==> segs[i] == prefix[i];
        assert segs[j] == prefix[j];
      }
    }
  }

  /** A segment the loop reads as the API key: one with the API name that
      is not also a remember-me segment. */
  predicate ApiKeySegment(s: Segment, rememberName: string, apiName: string)
  {
    s.name == apiName && s.name != rememberName
  }

  /** There is no API key exactly when no segment is an API-key segment. */
  lemma {:induction false} NoApiKeyIff(segs: seq<Segment>, rememberName: string, apiName: string)
    requires StripSegments(segs, rememberName, apiName).Success?
    ensures StripSegments(segs, rememberName, apiName).value.apiKey.None?
      <==> forall i :: 0 <= i < |segs| ==> !ApiKeySegment(segs[i], rememberName, apiName)
  {
    if segs != [] {
      var n := |segs|;
      var prefix := segs[..n - 1];
      StripLast(segs, rememberName, apiName);
      NoApiKeyIff(prefix, rememberName, apiName);
      assert forall i :: 0 <= i < n - 1 ==> segs[i] == prefix[i];
    }
  }

  /** The API key, when there is one, is the value of the last API-key
      segment. */
  lemma {:induction false} LastApiKeyWins(segs: seq<Segment>, rememberName: string, apiName: string)
    requires StripSegments(segs, rememberName, apiName).Success?
    ensures var key := StripSegments(segs, rememberName, apiName).value.apiKey;
      key.Some? ==> exists j :: (0 <= j < |segs| && ApiKeySegment(segs[j], rememberName, apiName) && key == segs[j].value
                                 && forall i :: j < i < |segs| ==> !ApiKeySegment(segs[i], rememberName, apiName))
  {
    var key := StripSegments(segs, rememberName, apiName).value.apiKey;
    if segs != [] && key.Some? {
      var n := |segs|;
      var prefix, c := segs[..n - 1], segs[n - 1];
      StripLast(segs, rememberName, apiName);
      if ApiKeySegment(c, rememberName, apiName) {
        assert ApiKeySegment(segs[n - 1], rememberName, apiName) && key == segs[n - 1].value;
      } else {
        LastApiKeyWins(prefix, rememberName, apiName);
        var j :| 0 <= j < |prefix| && ApiKeySegment(prefix[j], rememberName, apiName) && key == prefix[j].value
          && forall i :: j < i < |prefix| ==> !ApiKeySegment(prefix[i], rememberName, apiName);
        assert forall i :: j < i < n - 1 ==> segs[i] == prefix[i];
        assert segs[j] == prefix[j];
      }
    }
  }

  /** The texts of segments. */
  function Texts(segs: seq<Segment>): seq<string>
  {
    seq(|segs|, i requires 0 <= i < |segs| => segs[i].text)
  }

  /** On segments with no credential the filter keeps everything. */
  lemma {:induction false} NothingToStrip(segs: seq<Segment>, rememberName: string, apiName: string)
    requires forall i :: 0 <= i < |segs| ==> !Credential(segs[i], rememberName, apiName)
    ensures StripSegments(segs, rememberName, apiName) == Success(Acc(Texts(segs), None, None))
  {
    if segs != [] {
      var n := |segs|;
      NothingToStrip(segs[..n - 1], rememberName, apiName);
      assert Texts(segs) == Texts(segs[..n - 1]) + [segs[n - 1].text];
    }
  }

  /** A segment as parsing its own text gives it. */
  predicate Parsed(s: Segment)
  {
    s == Parse(s.text)
  }

  /** Every text the filter keeps from parsed segments without `;` parses
      to a non-credential and has no `;`. */
  lemma {:induction false} OthersAreClean(segs: seq<Segment>, rememberName: string, apiName: string)
    requires forall i :: 0 <= i < |segs| ==> Parsed(segs[i]) && ';' !in segs[i].text
    ensures forall t :: t in Others(segs, rememberName, apiName) ==>
      ';' !in t && !Credential(Parse(t), rememberName, apiName)
  {
    if segs != [] {
      OthersAreClean(segs[1..], rememberName, apiName);
      assert forall i :: 1 <= i < |segs| ==> segs[1..][i - 1] == segs[i];
    }
  }

  lemma EmptySegment()
    ensures Parse("").name == ""
  {
    assert Split("", '=') == [""];
  }

  /** Texts that parse to no credential pass the filter unchanged. */
  lemma Restrip(parts: seq<string>, rememberName: string, apiName: string)
    requires forall c :: c in parts ==> !Credential(Parse(c), rememberName, apiName)
    ensures StripSegments(ParseAll(parts), rememberName, apiName) == Success(Acc(parts, None, None))
  {
    var segs := ParseAll(parts);
    forall i | 0 <= i < |segs|
      ensures !Credential(segs[i], rememberName, apiName) && segs[i].text == parts[i]
    {
      assert segs[i] == Parse(parts[i]) && parts[i] in parts;
    }
    NothingToStrip(segs, rememberName, apiName);
    assert Texts(segs) == parts;
  }

  /** The header left for the project joins the non-credential segments
      with `;`. */
  lemma StrippedHeader(cookie: string, rememberName: string, apiName: string)
    requires StripSpec(Some(cookie), rememberName, apiName).Success?
    ensures StripSpec(Some(cookie), rememberName, apiName).value.cookie
      == Some(Join(Others(ParseAll(Split(cookie, ';')), rememberName, apiName), ';'))
  {
    KeptAreOthers(ParseAll(Split(cookie, ';')), rememberName, apiName);
  }

  /** The non-credential segments of a header contain no `;` and parse to
      no credential. */
  lemma OthersOfHeaderAreClean(cookie: string, rememberName: string, apiName: string)
    ensures forall t :: t in Others(ParseAll(Split(cookie, ';')), rememberName, apiName) ==>
      ';' !in t && !Credential(Parse(t), rememberName, apiName)
  {
    var cs := Split(cookie, ';');
    var segs := ParseAll(cs);
    forall i | 0 <= i < |cs| ensures Parsed(segs[i]) && ';' !in segs[i].text {
      assert segs[i] == Parse(cs[i]);
    }
    OthersAreClean(segs, rememberName, apiName);
  }

  /** Texts without `;` that parse to no credential, joined, split back
      into themselves and pass the filter unchanged. */
  lemma CleanHeaderRestrips(kept: seq<string>, rememberName: string, apiName: string)
    requires rememberName != "" && apiName != ""
    requires forall t :: t in kept ==> ';' !in t && !Credential(Parse(t), rememberName, apiName)
    ensures var out := Join(kept, ';');
      (forall c :: c in Split(out, ';') ==> !Credential(Parse(c), rememberName, apiName))
      && StripSpec(Some(out), rememberName, apiName) == Success(Stripped(Some(out), None, None))
  {
    var out := Join(kept, ';');
    if kept == [] {
      assert Split(out, ';') == [""];
      EmptySegment();
      Restrip([""], rememberName, apiName);
    } else {
      forall i | 0 <= i < |kept|
        ensures ';' !in kept[i]
      {
        assert kept[i] in kept;
      }
      SplitJoin(kept, ';');
      Restrip(kept, rememberName, apiName);
    }
  }

  /** After filtering, no segment of the header left for the project is a
      credential, and filtering it again changes nothing and finds no
      credential. */
  lemma NoCredentialLeft(cookie: string, rememberName: string, apiName: string)
    requires rememberName != "" && apiName != ""
    requires StripSpec(Some(cookie), rememberName, apiName).Success?
    ensures var out := StripSpec(Some(cookie), rememberName, apiName).value.cookie.value;
      (forall c :: c in Split(out, ';') ==> !Credential(Parse(c), rememberName, apiName))
      && StripSpec(Some(out), rememberName, apiName) == Success(Stripped(Some(out), None, None))
  {
    StrippedHeader(cookie, rememberName, apiName);
    OthersOfHeaderAreClean(cookie, rememberName, apiName);
    CleanHeaderRestrips(Others(ParseAll(Split(cookie, ';')), rememberName, apiName), rememberName, apiName);
  }
}
