/** Where a request/reply service lives and what it is called: the subject
    a service listens on (public, per account and browser, or per project
    and compute server), its name and its description. */
module Service {
  import opened Wrappers
  import opened JsText

  /** A service's location and description. The ids are strings except the
      compute server's, which is a number; `subject` overrides the derived
      subject when it is set. */
  datatype Description = Description(
    service: string,
    accountId: Option<string>,
    browserId: Option<string>,
    projectId: Option<string>,
    computeServerId: Option<int>,
    path: Option<string>,
    subject: Option<string>,
    description: Option<string>)

  /** A string option is truthy: present and non-empty. */
  predicate IsSet(x: Option<string>)
  {
    x.Some? && x.value != ""
  }

  /** `x ?? fallback` for a string option. */
  function OrElse(x: Option<string>, fallback: string): string
  {
    if x.Some? then x.value else fallback
  }

  /** `compute_server_id ?? fallback`, the number as `join` renders it. */
  function ServerOrElse(x: Option<int>, fallback: string): string
  {
    if x.Some? then IntToString(x.value) else fallback
  }

  /** The location kind the subject and the name derive from: account when
      an account id is set, else project when a project id is set, else
      public. */
  datatype Kind = Public | Account | Project

  function KindOf(d: Description): (k: Kind)
    ensures k == Public <==> !IsSet(d.accountId) && !IsSet(d.projectId)
    ensures k == Account <==> IsSet(d.accountId)
    ensures k == Project <==> !IsSet(d.accountId) && IsSet(d.projectId)
  {
    if !IsSet(d.projectId) && !IsSet(d.accountId) then Public
    else if IsSet(d.accountId) then Account
    else Project
  }

  /** The path slot: the encoded path when a path is set, else "_". The
      base64 encoder is a parameter. */
  function PathSlot(d: Description, encode: string -> string): string
  {
    if IsSet(d.path) then encode(d.path.value) else "_"
  }

  /** The segments of the derived subject. */
  function SubjectSegments(d: Description, encode: string -> string): (segments: seq<string>)
    ensures KindOf(d) == Public ==> segments == ["public", d.service]
    ensures KindOf(d) == Account ==>
              |segments| == 6 && segments[0] == "services"
              && segments[1] == "account-" + d.accountId.value && segments[5] == d.service
    ensures KindOf(d) == Project ==>
              |segments| == 5 && segments[0] == "services"
              && segments[1] == "project-" + d.projectId.value && segments[3] == d.service
  {
    var path := PathSlot(d, encode);
    match KindOf(d)
    case Public => ["public", d.service]
    case Account =>
      ["services", "account-" + d.accountId.value, OrElse(d.browserId, "_"), OrElse(d.projectId, "_"), path, d.service]
    case Project =>
      ["services", "project-" + d.projectId.value, ServerOrElse(d.computeServerId, "_"), d.service, path]
  }

  /** `serviceSubject(d)`. */
  function ServiceSubject(d: Description, encode: string -> string): (r: string)
    ensures IsSet(d.subject) ==> r == d.subject.value
    ensures !IsSet(d.subject) ==> Join(SubjectSegments(d, encode), '.') == r
  {
    if IsSet(d.subject) then d.subject.value else Join(SubjectSegments(d, encode), '.')
  }

  /** Every part the subject is built from, other than the constant ones,
      is free of dots: the service name, the ids, and the encoded path. */
  predicate DotFree(d: Description, encode: string -> string)
  {
    '.' !in d.service
    && (d.accountId.Some? ==> '.' !in d.accountId.value)
    && (d.browserId.Some? ==> '.' !in d.browserId.value)
    && (d.projectId.Some? ==> '.' !in d.projectId.value)
    && (d.path.Some? ==> '.' !in encode(d.path.value))
  }

  lemma IntToStringDotFree(n: int)
    ensures '.' !in IntToString(n)
  {
    var s := IntToString(n);
    if n >= 0 {
      assert s == NatToString(n);
    } else {
      assert s == "-" + NatToString(-n);
      assert forall i :: 1 <= i < |s| ==> s[i] == NatToString(-n)[i - 1];
    }
  }

  /** When the parts are dot-free, splitting a derived subject on '.' gives
      back its segments: the subject encodes the location. */
  lemma SubjectSplits(d: Description, encode: string -> string)
    requires !IsSet(d.subject) && DotFree(d, encode)
    ensures Split(ServiceSubject(d, encode), '.') == SubjectSegments(d, encode)
  {
    var segments := SubjectSegments(d, encode);
    if d.computeServerId.Some? {
      IntToStringDotFree(d.computeServerId.value);
    }
    forall i | 0 <= i < |segments|
      ensures '.' !in segments[i]
    {
      if KindOf(d) == Account && i == 1 {
        assert segments[1] == "account-" + d.accountId.value;
      } else if KindOf(d) == Project && i == 1 {
        assert segments[1] == "project-" + d.projectId.value;
      }
    }
    SplitJoin(segments, '.');
  }

  /** Two account services with dot-free parts and the same derived subject
      share the account, the browser slot, the project slot, the path slot
      and the service. */
  lemma AccountSubjectDeterminesLocation(d: Description, e: Description, encode: string -> string)
    requires !IsSet(d.subject) && !IsSet(e.subject)
    requires DotFree(d, encode) && DotFree(e, encode)
    requires KindOf(d) == Account && KindOf(e) == Account
    requires ServiceSubject(d, encode) == ServiceSubject(e, encode)
    ensures d.accountId == e.accountId && d.service == e.service
    ensures OrElse(d.browserId, "_") == OrElse(e.browserId, "_")
    ensures OrElse(d.projectId, "_") == OrElse(e.projectId, "_")
    ensures PathSlot(d, encode) == PathSlot(e, encode)
  {
    SubjectSplits(d, encode);
    SubjectSplits(e, encode);
    var sd, se := SubjectSegments(d, encode), SubjectSegments(e, encode);
    assert sd == se;
    assert sd[1] == "account-" + d.accountId.value;
    assert se[1] == "account-" + e.accountId.value;
    assert d.accountId.value == sd[1][8..] == se[1][8..] == e.accountId.value;
  }

  /** Subjects of different kinds never coincide: the first segment, or
      the "account-"/"project-" prefix of the second, tells them apart. */
  lemma SubjectKindsDiffer(d: Description, e: Description, encode: string -> string)
    requires !IsSet(d.subject) && !IsSet(e.subject)
    requires DotFree(d, encode) && DotFree(e, encode)
    requires KindOf(d) != KindOf(e)
    ensures ServiceSubject(d, encode) != ServiceSubject(e, encode)
  {
    SubjectSplits(d, encode);
    SubjectSplits(e, encode);
    var sd, se := SubjectSegments(d, encode), SubjectSegments(e, encode);
    if KindOf(d) == Account && KindOf(e) == Project {
      assert sd[1][..8] == "account-" && se[1][..8] == "project-";
    } else if KindOf(d) == Project && KindOf(e) == Account {
      assert sd[1][..8] == "project-" && se[1][..8] == "account-";
    } else if KindOf(d) == Public {
      assert sd[0] != se[0];
    } else {
      assert sd[0] != se[0];
    }
  }

  /** The path slot is "_" exactly when no path is set, provided the
      encoder never yields "_" (base64 text never does). */
  lemma PathSlotMarksMissingPath(d: Description, encode: string -> string)
    requires forall s :: encode(s) != "_"
    ensures PathSlot(d, encode) == "_" <==> !IsSet(d.path)
  {
  }

  // ---------------------------------------------------------------------
  // serviceName and serviceDescription

  /** `serviceName(d)`: the segments joined with '-', with "-" standing for
      a missing browser or compute server. */
  function ServiceName(d: Description): (r: string)
    ensures KindOf(d) == Public ==> r == d.service
    ensures EndsWith(r, "-" + d.service) || r == d.service
    ensures KindOf(d) == Account ==> StartsWith(r, "account-" + d.accountId.value + "-")
    ensures KindOf(d) == Project ==> StartsWith(r, "project-" + d.projectId.value + "-")
  {
    match KindOf(d)
    case Public => Join([d.service], '-')
    case Account =>
      var a, b := "account-" + d.accountId.value, OrElse(d.browserId, "-");
      JoinThree(a, b, d.service, '-');
      Join([a, b, d.service], '-')
    case Project =>
      var a, b := "project-" + d.projectId.value, ServerOrElse(d.computeServerId, "-");
      JoinThree(a, b, d.service, '-');
      Join([a, b, d.service], '-')
  }

  lemma JoinThree(a: string, b: string, c: string, sep: char)
    ensures Join([a, b, c], sep) == a + [sep] + b + [sep] + c
  {
    assert [b, c][1..] == [c];
    assert Join([b, c], sep) == b + [sep] + c;
    assert [a, b, c][1..] == [b, c];
  }

  /** The name of an account service with no browser id has "---" before
      the service: the "-" placeholder sits between two separators. */
  lemma NameOfAccountWithoutBrowser(d: Description)
    requires KindOf(d) == Account && d.browserId.None?
    ensures ServiceName(d) == "account-" + d.accountId.value + "---" + d.service
  {
    JoinThree("account-" + d.accountId.value, "-", d.service, '-');
  }

  /** `serviceDescription(d)`: the two-element array joined with "", that
      is, the description (empty when unset) followed by a line naming the
      path when a path is set. */
  function ServiceDescription(d: Description): (r: string)
    ensures StartsWith(r, OrElse(d.description, ""))
    ensures !IsSet(d.path) ==> r == OrElse(d.description, "")
    ensures IsSet(d.path) ==> EndsWith(r, "\nPath: " + d.path.value)
  {
    OrElse(d.description, "") + (if IsSet(d.path) then "\nPath: " + d.path.value else "")
  }
}
