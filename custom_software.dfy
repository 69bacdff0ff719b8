/** The custom software images a project can be started from, as the front
    end prepares them: each image is a record of text fields keyed by the
    image id; disabled images are dropped, and the display name, the
    description, the documentation URL, the search text and the displayed
    tag are filled in. */
module CustomSoftware {
  import opened Wrappers
  import opened JsText
  import opened JsValue

  /** `ComputeImageKeys`: the fields an image may have. */
  datatype Key = Id | Src | ImageType | Display | Url | Desc | Path | SearchStr | DisplayTag | Disabled

  /** An image: its fields by name. */
  type Image = map<Key, Value>

  /** `img.get(key)`: a missing field reads as undefined. */
  function Get(img: Image, key: Key): Value
  {
    if key in img then img[key] else Undefined
  }

  /** A field holds text or nothing. */
  predicate IsText(v: Value)
  {
    v.Str? || IsNullish(v)
  }

  /** The text fields the preparation reads hold text or nothing, as the
      image type declares. */
  predicate TextFields(img: Image)
  {
    IsText(Get(img, Display)) && IsText(Get(img, Desc)) && IsText(Get(img, Url)) && IsText(Get(img, Src))
  }

  // ---------------------------------------------------------------------
  // id2name

  /** `capitalize(s)`: the first character upper-cased. */
  function Capitalize(s: string): string
  {
    if s == [] then [] else [ToUpperChar(s[0])] + s[1..]
  }

  /** Capitalizing keeps the length, upper-cases the first character and
      keeps the rest. */
  lemma CapitalizeSpec(s: string)
    ensures |Capitalize(s)| == |s|
    ensures s != [] ==> Capitalize(s)[0] == ToUpperChar(s[0]) && Capitalize(s)[1..] == s[1..]
  {
  }

  function CapitalizeAll(parts: seq<string>): seq<string>
  {
    seq(|parts|, i requires 0 <= i < |parts| => Capitalize(parts[i]))
  }

  /** `id2name(id)`: the parts between dashes, capitalized, joined by
      spaces. */
  function Id2Name(id: string): string
  {
    Join(CapitalizeAll(Split(id, '-')), ' ')
  }

  /** Upper-casing never makes a space. */
  lemma CapitalizeKeepsSpaces(s: string)
    ensures ' ' in Capitalize(s) <==> ' ' in s
  {
    if s != [] {
      assert s == [s[0]] + s[1..];
      assert Capitalize(s) == [ToUpperChar(s[0])] + s[1..];
    }
  }

  /** For an id without spaces, the words of the name are the dash-separated
      parts of the id, each capitalized. */
  lemma Id2NameWords(id: string)
    requires ' ' !in id
    ensures Split(Id2Name(id), ' ') == CapitalizeAll(Split(id, '-'))
  {
    var parts := Split(id, '-');
    var caps := CapitalizeAll(parts);
    SplitPartsWithin(id, '-');
    forall i | 0 <= i < |caps| ensures ' ' !in caps[i] {
      CapitalizeKeepsSpaces(parts[i]);
      assert caps[i] == Capitalize(parts[i]);
    }
    SplitJoin(caps, ' ');
  }

  /** The name is as long as the id: each dash becomes a space and each
      capitalized part keeps its length. */
  lemma Id2NameLength(id: string)
    ensures |Id2Name(id)| == |id|
  {
    var parts := Split(id, '-');
    var caps := CapitalizeAll(parts);
    JoinSplit(id, '-');
    forall i | 0 <= i < |parts| ensures |parts[i]| == |caps[i]| {
      CapitalizeSpec(parts[i]);
    }
    JoinSameLengths(parts, caps, '-', ' ');
  }

  /** Joining parts of the same lengths gives texts of the same length. */
  lemma {:induction false} JoinSameLengths(p: seq<string>, q: seq<string>, a: char, b: char)
    requires |p| == |q| && forall i :: 0 <= i < |p| ==> |p[i]| == |q[i]|
    ensures |Join(p, a)| == |Join(q, b)|
  {
    if |p| > 1 {
      JoinSameLengths(p[1..], q[1..], a, b);
    }
  }

  // ---------------------------------------------------------------------
  // The fallbacks

  /** `fallback(img, key, replace)`: the stored text when it is non-empty,
      else the replacement, else "". The replacement is passed already
      computed from the image. */
  function Fallback(img: Image, key: Key, replacement: Option<string>): (r: string)
    requires IsText(Get(img, key))
    ensures Get(img, key).Str? && Get(img, key).s != "" ==> r == Get(img, key).s
    ensures IsNullish(Get(img, key)) || Get(img, key) == Str("") ==> r == replacement.GetOr("")
  {
    var ret := Get(img, key);
    if IsNullish(ret) || ret.s == "" then replacement.GetOr("") else ret.s
  }

  /** Storing the result of a fallback and falling back again, with the same
      replacement, changes nothing. */
  lemma FallbackStable(img: Image, key: Key, replacement: Option<string>)
    requires IsText(Get(img, key))
    ensures var stored := img[key := Str(Fallback(img, key, replacement))];
      Fallback(stored, key, replacement) == Fallback(img, key, replacement)
  {
  }

  /** `display_fallback(img, id)`. */
  function DisplayFallback(img: Image, id: string): string
    requires TextFields(img)
  {
    Fallback(img, Display, Some(Id2Name(id)))
  }

  const NoDescription := "*No description available.*"

  /** `desc_fallback(img)`. */
  function DescFallback(img: Image): string
    requires TextFields(img)
  {
    Fallback(img, Desc, Some(NoDescription))
  }

  /** Every image has a description to show. */
  lemma DescFallbackNonEmpty(img: Image)
    requires TextFields(img)
    ensures DescFallback(img) != ""
  {
  }

  /** The hosts whose git URLs lead to a web page. */
  const CloudGit: seq<string> := ["github.com", "gitlab.com", "bitbucket.org"]

  /** The loop over the hosts in `derive_url`: at the first host the source
      mentions, the source without a trailing ".git". */
  function FromHosts(src: string, hosts: seq<string>): Option<string>
  {
    if hosts == [] then None
    else if !Contains(src, hosts[0]) then FromHosts(src, hosts[1..])
    else if EndsWith(src, ".git") then Some(src[..|src| - 4])
    else Some(src)
  }

  /** `derive_url(img)`. */
  function DeriveUrl(img: Image): Option<string>
    requires TextFields(img)
  {
    var src := Get(img, Src);
    if IsNullish(src) || src.s == "" then None
    else if !StartsWith(src.s, "http") then None
    else FromHosts(src.s, CloudGit)
  }

  /** The loop finds a URL exactly when the source mentions one of the
      hosts, and the URL is the source, less ".git" when it ends so. */
  lemma {:induction false} FromHostsFinds(src: string, hosts: seq<string>)
    ensures FromHosts(src, hosts).Some? <==> exists h :: h in hosts && Contains(src, h)
    ensures FromHosts(src, hosts).Some? && EndsWith(src, ".git") ==> FromHosts(src, hosts).value + ".git" == src
    ensures FromHosts(src, hosts).Some? && !EndsWith(src, ".git") ==> FromHosts(src, hosts).value == src
  {
    if hosts != [] {
      FromHostsFinds(src, hosts[1..]);
      if Contains(src, hosts[0]) {
        assert hosts[0] in hosts;
      }
      if EndsWith(src, ".git") {
        assert src[..|src| - 4] + ".git" == src;
      }
    }
  }

  /** A URL is derived exactly from a non-empty source that starts with
      "http" and mentions GitHub, GitLab or Bitbucket, and it is that source
      with a trailing ".git" removed. */
  lemma DeriveUrlSpec(img: Image)
    requires TextFields(img)
    ensures var src := Get(img, Src);
      DeriveUrl(img).Some? <==>
        src.Str? && src.s != "" && StartsWith(src.s, "http") && exists h :: h in CloudGit && Contains(src.s, h)
    ensures DeriveUrl(img).Some? ==>
      var src := Get(img, Src).s;
      (EndsWith(src, ".git") ==> DeriveUrl(img).value + ".git" == src)
      && (!EndsWith(src, ".git") ==> DeriveUrl(img).value == src)
  {
    var src := Get(img, Src);
    if src.Str? && src.s != "" {
      FromHostsFinds(src.s, CloudGit);
    }
  }

  /** `url_fallback(img)`. */
  function UrlFallback(img: Image): string
    requires TextFields(img)
  {
    Fallback(img, Url, DeriveUrl(img))
  }

  // ---------------------------------------------------------------------
  // The search text and the displayed tag

  /** `parts.filter((x) => x.length > 0)`. */
  function NonEmpty(parts: seq<string>): seq<string>
  {
    if parts == [] then []
    else
      var rest := NonEmpty(parts[1..]);
      if parts[0] == "" then rest else [parts[0]] + rest
  }

  /** The filter keeps exactly the non-empty parts. */
  lemma {:induction false} NonEmptySpec(parts: seq<string>)
    ensures forall i :: 0 <= i < |NonEmpty(parts)| ==> NonEmpty(parts)[i] != ""
    ensures forall x :: x in NonEmpty(parts) <==> x in parts && x != ""
  {
    if parts != [] {
      NonEmptySpec(parts[1..]);
      assert parts == [parts[0]] + parts[1..];
    }
  }

  function LowerAll(parts: seq<string>): (r: seq<string>)
    ensures |r| == |parts|
  {
    seq(|parts|, i requires 0 <= i < |parts| => ToLower(parts[i]))
  }

  /** `${id} ${display} ${desc} ${url}`, split on spaces, without empty
      words, joined by single spaces and lower-cased. */
  function SearchText(id: string, display: string, desc: string, url: string): string
  {
    var text := id + " " + display + " " + desc + " " + url;
    ToLower(Join(NonEmpty(Split(text, ' ')), ' '))
  }

  /** The search text holds no upper-case letter. */
  lemma SearchTextIsLower(id: string, display: string, desc: string, url: string)
    ensures var r := SearchText(id, display, desc, url);
      forall i :: 0 <= i < |r| ==> !('A' <= r[i] <= 'Z')
  {
  }

  /** The words of the search text: the words of the four fields in order,
      lower-cased, none of them empty. */
  lemma SearchTextWords(id: string, display: string, desc: string, url: string)
    ensures var words := NonEmpty(Split(id + " " + display + " " + desc + " " + url, ' '));
      && (words == [] ==> SearchText(id, display, desc, url) == "")
      && (words != [] ==> Split(SearchText(id, display, desc, url), ' ') == LowerAll(words))
    ensures SearchText(id, display, desc, url) != "" ==>
      forall w :: w in Split(SearchText(id, display, desc, url), ' ') ==> w != ""
  {
    var text := id + " " + display + " " + desc + " " + url;
    var words := NonEmpty(Split(text, ' '));
    var lower := LowerAll(words);
    ToLowerJoin(words, ' ');
    NonEmptySpec(Split(text, ' '));
    if words != [] {
      forall i | 0 <= i < |lower| ensures ' ' !in lower[i] && lower[i] != "" {
        assert words[i] in words && lower[i] == ToLower(words[i]);
        LowerKeepsSpaces(words[i]);
      }
      SplitJoin(lower, ' ');
    } else {
      assert Split("", ' ') == [""];
    }
  }

  /** Lower-casing never makes or removes a space. */
  lemma LowerKeepsSpaces(s: string)
    ensures ' ' in ToLower(s) <==> ' ' in s
  {
    var r := ToLower(s);
    if ' ' in r {
      var i :| 0 <= i < |r| && r[i] == ' ';
      assert s[i] == ' ';
    }
    if ' ' in s {
      var i :| 0 <= i < |s| && s[i] == ' ';
      assert r[i] == ' ';
    }
  }

  /** Lower-casing a text joined by spaces lower-cases each part. */
  lemma {:induction false} ToLowerJoin(parts: seq<string>, sep: char)
    requires sep == ' '
    ensures ToLower(Join(parts, sep)) == Join(LowerAll(parts), sep)
  {
    if |parts| == 1 {
      assert LowerAll(parts) == [ToLower(parts[0])];
    } else if |parts| > 1 {
      ToLowerJoin(parts[1..], sep);
      assert LowerAll(parts)[1..] == LowerAll(parts[1..]);
      ToLowerAppend(parts[0] + [sep], Join(parts[1..], sep));
      ToLowerAppend(parts[0], [sep]);
    }
  }

  lemma ToLowerAppend(a: string, b: string)
    ensures ToLower(a + b) == ToLower(a) + ToLower(b)
  {
    var r, t := ToLower(a + b), ToLower(a) + ToLower(b);
    assert |r| == |t|;
    forall i | 0 <= i < |r| ensures r[i] == t[i] {
      if i < |a| {
        assert (a + b)[i] == a[i];
      } else {
        assert (a + b)[i] == b[i - |a|];
      }
    }
  }

  /** The displayed tag: the id, with ":latest" appended when it names no
      tag. */
  function DisplayedTag(id: string): string
  {
    id + (if ':' in id then "" else ":latest")
  }

  /** The displayed tag always names a tag and starts with the id; it is
      the id itself exactly when the id already names one. */
  lemma DisplayedTagSpec(id: string)
    ensures ':' in DisplayedTag(id)
    ensures StartsWith(DisplayedTag(id), id)
    ensures ':' in id ==> DisplayedTag(id) == id
    ensures ':' !in id ==> DisplayedTag(id) == id + ":latest"
  {
    assert (id + ":latest")[|id|] == ':';
    assert DisplayedTag(id)[..|id|] == id;
  }

  // ---------------------------------------------------------------------
  // prepare

  /** The fields `prepare` derives. */
  predicate Derived(k: Key)
  {
    k.Display? || k.Desc? || k.Url? || k.SearchStr? || k.DisplayTag?
  }

  /** The image with the five derived fields set. */
  function Rewrite(img: Image, display: string, desc: string, url: string, search: string, tag: string): (r: Image)
    ensures forall k :: k in r <==> k in img || Derived(k)
    ensures Get(r, Display) == Str(display) && Get(r, Desc) == Str(desc) && Get(r, Url) == Str(url)
    ensures Get(r, SearchStr) == Str(search) && Get(r, DisplayTag) == Str(tag)
    ensures forall k :: k in img && !Derived(k) ==> r[k] == img[k]
    ensures IsText(Get(img, Src)) ==> TextFields(r)
  {
    img[Display := Str(display)][Desc := Str(desc)][SearchStr := Str(search)][Url := Str(url)][DisplayTag := Str(tag)]
  }

  /** Setting the derived fields to the values they hold changes nothing. */
  lemma RewriteSame(img: Image, display: string, desc: string, url: string, search: string, tag: string)
    requires Get(img, Display) == Str(display) && Get(img, Desc) == Str(desc) && Get(img, Url) == Str(url)
    requires Get(img, SearchStr) == Str(search) && Get(img, DisplayTag) == Str(tag)
    ensures Rewrite(img, display, desc, url, search, tag) == img
  {
    var r := Rewrite(img, display, desc, url, search, tag);
    assert forall k :: k in r <==> k in img;
  }

  /** An image as `prepare` rewrites it: the fallbacks, the search text of
      the four, the displayed tag; every other field is kept. */
  function PrepareImage(img: Image, id: string): (r: Image)
    requires TextFields(img)
  {
    var display := DisplayFallback(img, id);
    var desc := DescFallback(img);
    var url := UrlFallback(img);
    Rewrite(img, display, desc, url, SearchText(id, display, desc, url), DisplayedTag(id))
  }

  /** An image is enabled unless its `disabled` field is truthy. */
  predicate Enabled(img: Image)
  {
    !Truthy(Get(img, Disabled))
  }

  /** `prepare(data)`: the enabled images, each rewritten. */
  function Prepare(data: map<string, Image>): (r: map<string, Image>)
    requires forall id | id in data :: TextFields(data[id])
    ensures forall id :: id in r <==> id in data && Enabled(data[id])
  {
    map id | id in data && Enabled(data[id]) :: PrepareImage(data[id], id)
  }

  /** Each image `prepare` keeps is the image rewritten. */
  lemma PrepareValue(data: map<string, Image>, id: string)
    requires forall id | id in data :: TextFields(data[id])
    requires id in data && Enabled(data[id])
    ensures Prepare(data)[id] == PrepareImage(data[id], id)
  {
  }

  /** The images `prepare` keeps hold text fields, so they may be prepared
      and looked up again. */
  lemma PreparedTextFields(data: map<string, Image>)
    requires forall id | id in data :: TextFields(data[id])
    ensures forall id | id in Prepare(data) :: TextFields(Prepare(data)[id])
  {
    var p := Prepare(data);
    forall id | id in p ensures TextFields(p[id]) {
      PrepareValue(data, id);
    }
  }

  /** Falling back again on a field that holds the result of a fallback,
      with the same replacement, gives the same result. */
  lemma FallbackAgain(img: Image, p: Image, key: Key, replacement: Option<string>)
    requires IsText(Get(img, key))
    requires Get(p, key) == Str(Fallback(img, key, replacement))
    ensures Fallback(p, key, replacement) == Fallback(img, key, replacement)
  {
  }

  /** The derived URL depends on the source field alone. */
  lemma DeriveUrlOfSameSrc(a: Image, b: Image)
    requires TextFields(a) && TextFields(b) && Get(a, Src) == Get(b, Src)
    ensures DeriveUrl(a) == DeriveUrl(b)
  {
  }

  /** Preparing a prepared image changes nothing: every fallback finds the
      text it stored, and the source the URL came from is kept. */
  lemma PrepareImageIdempotent(img: Image, id: string)
    requires TextFields(img)
    ensures PrepareImage(PrepareImage(img, id), id) == PrepareImage(img, id)
  {
    var display, desc, url := DisplayFallback(img, id), DescFallback(img), UrlFallback(img);
    var search, tag := SearchText(id, display, desc, url), DisplayedTag(id);
    var p := Rewrite(img, display, desc, url, search, tag);
    assert PrepareImage(img, id) == p;
    FallbackAgain(img, p, Display, Some(Id2Name(id)));
    FallbackAgain(img, p, Desc, Some(NoDescription));
    DeriveUrlOfSameSrc(img, p);
    FallbackAgain(img, p, Url, DeriveUrl(img));
    assert DisplayFallback(p, id) == display && DescFallback(p) == desc && UrlFallback(p) == url;
    RewriteSame(p, display, desc, url, search, tag);
  }

  /** Preparing keeps an enabled image enabled: the `disabled` field is
      not one it writes. */
  lemma PrepareImageEnabled(img: Image, id: string)
    requires TextFields(img) && Enabled(img)
    ensures Enabled(PrepareImage(img, id))
  {
    assert Get(PrepareImage(img, id), Disabled) == Get(img, Disabled);
  }

  /** Preparing prepared images changes nothing. */
  lemma PrepareIdempotent(data: map<string, Image>)
    requires forall id | id in data :: TextFields(data[id])
    ensures Prepare(Prepare(data)) == Prepare(data)
  {
    var p := Prepare(data);
    var q := Prepare(p);
    forall id | id in p ensures id in q && q[id] == p[id] {
      PreparedEntryStable(data, id);
    }
    assert q.Keys == p.Keys;
  }

  lemma PreparedEntryStable(data: map<string, Image>, id: string)
    requires forall id | id in data :: TextFields(data[id])
    requires id in Prepare(data)
    ensures id in Prepare(Prepare(data)) && Prepare(Prepare(data))[id] == Prepare(data)[id]
  {
    var p := Prepare(data);
    PrepareValue(data, id);
    PrepareImageEnabled(data[id], id);
    PrepareValue(p, id);
    PrepareImageIdempotent(data[id], id);
  }

  // ---------------------------------------------------------------------
  // launchcode2display

  /** `launchcode2display(images, launch)`: the display name of the image
      named by the second '/'-separated part of the launch code, else its
      name derived from the id; `None` when that part is missing or empty
      or names no image. */
  function Launchcode2Display(images: map<string, Image>, launch: string): (r: Option<string>)
    requires forall id | id in images :: TextFields(images[id])
    ensures var parts := Split(launch, '/');
      r.None? <==> |parts| < 2 || parts[1] == "" || parts[1] !in images
  {
    var parts := Split(launch, '/');
    if |parts| < 2 || parts[1] == "" then None
    else
      var id := parts[1];
      if id !in images then None
      else
        var display := Get(images[id], Display);
        assert TextFields(images[id]);
        if Truthy(display) then Some(display.s) else Some(Id2Name(id))
  }

  /** A name is found only for an id that is not empty, and it is never
      empty. */
  lemma Launchcode2DisplayNonEmpty(images: map<string, Image>, launch: string)
    requires forall id | id in images :: TextFields(images[id])
    requires Launchcode2Display(images, launch).Some?
    ensures Launchcode2Display(images, launch).value != ""
  {
    Id2NameLength(Split(launch, '/')[1]);
  }

  /** On prepared images, the launch code "csi/<id>/..." of an enabled
      image shows the display name the preparation stored. */
  lemma LaunchcodeShowsPreparedDisplay(data: map<string, Image>, id: string, rest: string)
    requires forall i | i in data :: TextFields(data[i])
    requires id in data && Enabled(data[id]) && id != "" && '/' !in id
    ensures Launchcode2Display(Prepare(data), "csi/" + id + "/" + rest) == Some(DisplayFallback(data[id], id))
  {
    var p := Prepare(data);
    PreparedTextFields(data);
    LaunchcodeSegments(id, rest);
    PrepareValue(data, id);
    PreparedDisplay(data[id], id);
    LaunchcodeOfStoredDisplay(p, "csi/" + id + "/" + rest, id, DisplayFallback(data[id], id));
  }

  /** A launch code naming an image whose display name is stored and not
      empty shows that name. */
  lemma LaunchcodeOfStoredDisplay(images: map<string, Image>, launch: string, id: string, display: string)
    requires forall i | i in images :: TextFields(images[i])
    requires var parts := Split(launch, '/'); |parts| >= 2 && parts[1] == id && id != ""
    requires id in images && Get(images[id], Display) == Str(display) && display != ""
    ensures Launchcode2Display(images, launch) == Some(display)
  {
  }

  /** The second segment of "csi/<id>/<rest>" is the id. */
  lemma LaunchcodeSegments(id: string, rest: string)
    requires '/' !in id
    ensures var parts := Split("csi/" + id + "/" + rest, '/');
      |parts| >= 2 && parts[1] == id
  {
    assert "csi/" + id + "/" + rest == "csi" + ['/'] + (id + ['/'] + rest);
    SplitAppend("csi", '/', id + ['/'] + rest);
    SplitAppend(id, '/', rest);
  }

  /** A prepared image's display name is its display fallback, and that is
      not empty when the id is not. */
  lemma PreparedDisplay(img: Image, id: string)
    requires TextFields(img) && id != ""
    ensures Get(PrepareImage(img, id), Display) == Str(DisplayFallback(img, id))
    ensures DisplayFallback(img, id) != ""
  {
    Id2NameLength(id);
  }
}
