/** The URI fragment codec of the front end: a fragment id object becomes
    `key=value&key=value`, or its anchor alone, and a fragment decodes back
    into an object, or into `{anchor}` when it has no `=`.

    An object is its list of own enumerable properties in enumeration
    order; assigning a property that exists updates it in place, a new one
    goes at the end. */
module FragmentId {
  import opened Wrappers
  import opened JsText
  import opened JsValue

  type Entries = seq<(string, Value)>

  /** The argument of `encode`: null or undefined, a value of another type,
      or a plain object. */
  datatype FragmentArg = Absent | Scalar(v: Value) | Object(entries: Entries)

  /** The value of property `key`, if the object has it. */
  function Lookup(entries: Entries, key: string): Option<Value>
  {
    if entries == [] then None
    else if entries[0].0 == key then Some(entries[0].1)
    else Lookup(entries[1..], key)
  }

  predicate DistinctKeys(entries: Entries)
  {
    forall i, j :: 0 <= i < j < |entries| ==> entries[i].0 != entries[j].0
  }

  /** `obj[key] = value`. */
  function SetProp(entries: Entries, key: string, value: Value): (r: Entries)
    ensures Lookup(r, key) == Some(value)
    ensures forall k :: k != key ==> Lookup(r, k) == Lookup(entries, k)
  {
    if entries == [] then [(key, value)]
    else if entries[0].0 == key then [(key, value)] + entries[1..]
    else [entries[0]] + SetProp(entries[1..], key, value)
  }

  /** One property as the encoding loop writes it. */
  function Pair(e: (string, Value)): string
  {
    e.0 + "=" + ToStr(e.1)
  }

  /** The `key=value` texts the encoding loop pushes, in order. */
  function Pairs(entries: Entries): seq<string>
  {
    seq(|entries|, i requires 0 <= i < |entries| => Pair(entries[i]))
  }

  /** An anchor property that is neither null nor undefined. */
  predicate HasAnchor(entries: Entries)
  {
    Lookup(entries, "anchor").Some? && !IsNullish(Lookup(entries, "anchor").value)
  }

  function InvalidMessage(v: Value): string
  {
    "attempt to encode invalid fragmentId -- \"" + ToStr(v) + "\""
  }

  /** What `encode` returns or throws. */
  function EncodeSpec(x: FragmentArg): Result<string, string>
  {
    match x
    case Absent => Success("")
    case Scalar(v) =>
      if IsNullish(v) then Success("")
      else if TypeOf(v) != "object" then Failure(InvalidMessage(v))
      else Success("")
    case Object(entries) =>
      if HasAnchor(entries) then Success(ToStr(Lookup(entries, "anchor").value))
      else Success(Join(Pairs(entries), '&'))
  }

  /** `Fragment.encode(fragmentId)`. A non-null value of another type than
      object throws; a set anchor is returned alone; otherwise every
      property is written as `key=value`, joined by `&`. */
  method Encode(x: FragmentArg) returns (r: Result<string, string>)
    ensures r == EncodeSpec(x)
  {
    if x.Absent? || (x.Scalar? && IsNullish(x.v)) {
      return Success("");
    }
    if x.Scalar? {
      if TypeOf(x.v) != "object" {
        return Failure(InvalidMessage(x.v));
      }
      return Success("");
    }
    var entries := x.entries;
    if HasAnchor(entries) {
      return Success(ToStr(Lookup(entries, "anchor").value));
    }
    var v: seq<string> := [];
    for i := 0 to |entries|
      invariant |v| == i
      invariant forall j :: 0 <= j < i ==> v[j] == Pair(entries[j])
    {
      v := v + [Pair(entries[i])];
    }
    assert v == Pairs(entries);
    return Success(Join(v, '&'));
  }

  // ---------------------------------------------------------------------
  // decode

  /** Drops one leading `#`. */
  function Unhash(h: string): string
  {
    if |h| > 0 && h[0] == '#' then h[1..] else h
  }

  /** The decoding loop over the `&`-parts seen so far: a part that splits
      into exactly two pieces around `=` assigns the second to the first. */
  function DecodeParts(parts: seq<string>): Entries
  {
    if parts == [] then []
    else
      var obj := DecodeParts(parts[..|parts| - 1]);
      var v := Split(parts[|parts| - 1], '=');
      if |v| == 2 then SetProp(obj, v[0], Str(v[1])) else obj
  }

  /** What `decode` returns; `None` is undefined. */
  function DecodeSpec(hash: Option<string>): Option<Entries>
  {
    var h := if hash.Some? then Unhash(hash.value) else "";
    if h == "" then None
    else if '=' !in h then Some([("anchor", Str(h))])
    else Some(DecodeParts(Split(h, '&')))
  }

  /** `Fragment.decode(hash)`. */
  method Decode(hash: Option<string>) returns (r: Option<Entries>)
    ensures r == DecodeSpec(hash)
  {
    var h := if hash.Some? then hash.value else "";
    if |h| > 0 && h[0] == '#' {
      h := h[1..];
    }
    if h == "" {
      return None;
    }
    if '=' !in h {
      return Some([("anchor", Str(h))]);
    }
    var parts := Split(h, '&');
    var fragmentId: Entries := [];
    for i := 0 to |parts|
      invariant fragmentId == DecodeParts(parts[..i])
    {
      assert parts[..i + 1][..i] == parts[..i];
      var v := Split(parts[i], '=');
      if |v| == 2 {
        fragmentId := SetProp(fragmentId, v[0], Str(v[1]));
      }
    }
    assert parts[..|parts|] == parts;
    return Some(fragmentId);
  }

  // ---------------------------------------------------------------------
  // round trips

  /** An anchor without `=` that does not start with `#` survives encoding
      and decoding, whatever other properties the object has. */
  lemma AnchorRoundTrip(entries: Entries, a: string)
    requires Lookup(entries, "anchor") == Some(Str(a))
    requires a != "" && '=' !in a && a[0] != '#'
    ensures EncodeSpec(Object(entries)) == Success(a)
    ensures DecodeSpec(Some(a)) == Some([("anchor", Str(a))])
  {
  }

  /** A leading `#` in an anchor is lost on the way back. */
  lemma HashAnchorLosesHash()
    ensures DecodeSpec(Some(EncodeSpec(Object([("anchor", Str("#x"))])).value)) == Some([("anchor", Str("x"))])
  {
    assert Lookup([("anchor", Str("#x"))], "anchor") == Some(Str("#x"));
    assert Unhash("#x") == "x";
  }

  /** The properties a key=value encoding can carry: texts without `&` or
      `=`, distinct keys, no anchor, and a first key without a leading `#`. */
  predicate Encodable(entries: Entries)
  {
    entries != [] && DistinctKeys(entries)
    && (forall i :: 0 <= i < |entries| ==>
          entries[i].0 != "anchor" && '&' !in entries[i].0 && '=' !in entries[i].0
          && '&' !in ToStr(entries[i].1) && '=' !in ToStr(entries[i].1))
    && (entries[0].0 == "" || entries[0].0[0] != '#')
  }

  function Stringify(e: (string, Value)): (string, Value)
  {
    (e.0, Str(ToStr(e.1)))
  }

  /** The object as decoding returns it: every value as a string. */
  function Stringified(entries: Entries): Entries
  {
    seq(|entries|, i requires 0 <= i < |entries| => Stringify(entries[i]))
  }

  lemma {:induction false} LookupMissing(entries: Entries, key: string)
    requires forall i :: 0 <= i < |entries| ==> entries[i].0 != key
    ensures Lookup(entries, key).None?
  {
    if entries != [] {
      LookupMissing(entries[1..], key);
    }
  }

  lemma {:induction false} SetPropAppends(entries: Entries, key: string, value: Value)
    requires forall i :: 0 <= i < |entries| ==> entries[i].0 != key
    ensures SetProp(entries, key, value) == entries + [(key, value)]
  {
    if entries != [] {
      SetPropAppends(entries[1..], key, value);
    }
  }

  lemma PairSplits(k: string, s: string)
    requires '=' !in k && '=' !in s
    ensures Split(k + "=" + s, '=') == [k, s]
  {
    SplitAppend(k, '=', s);
    SplitNoSep(s, '=');
  }

  /** `key=value` texts for key/value string pairs. */
  function Texts(kvs: seq<(string, string)>): seq<string>
  {
    seq(|kvs|, i requires 0 <= i < |kvs| => kvs[i].0 + "=" + kvs[i].1)
  }

  /** The object that assigns each pair in turn to distinct keys. */
  function Assigned(kvs: seq<(string, string)>): Entries
  {
    seq(|kvs|, i requires 0 <= i < |kvs| => (kvs[i].0, Str(kvs[i].1)))
  }

  /** Decoding `key=value` texts with distinct keys and no `=` inside
      rebuilds the object in the same order. */
  lemma {:induction false} DecodeTexts(kvs: seq<(string, string)>)
    requires forall i, j :: 0 <= i < j < |kvs| ==> kvs[i].0 != kvs[j].0
    requires forall i :: 0 <= i < |kvs| ==> '=' !in kvs[i].0 && '=' !in kvs[i].1
    ensures DecodeParts(Texts(kvs)) == Assigned(kvs)
  {
    if kvs != [] {
      var n := |kvs|;
      var prefix := kvs[..n - 1];
      DecodeTexts(prefix);
      assert Texts(kvs)[..n - 1] == Texts(prefix);
      var k, v := kvs[n - 1].0, kvs[n - 1].1;
      PairSplits(k, v);
      var before := Assigned(prefix);
      assert forall i :: 0 <= i < |before| ==> before[i].0 == kvs[i].0 != k;
      SetPropAppends(before, k, Str(v));
      assert Assigned(kvs) == before + [(k, Str(v))];
    }
  }

  /** The key/value texts of an object's properties. */
  function KeyValues(entries: Entries): seq<(string, string)>
  {
    seq(|entries|, i requires 0 <= i < |entries| => (entries[i].0, ToStr(entries[i].1)))
  }

  lemma EncodableTexts(entries: Entries)
    requires Encodable(entries)
    ensures Pairs(entries) == Texts(KeyValues(entries))
    ensures Stringified(entries) == Assigned(KeyValues(entries))
    ensures DecodeParts(Pairs(entries)) == Stringified(entries)
    ensures forall i :: 0 <= i < |Pairs(entries)| ==> '&' !in Pairs(entries)[i]
  {
    var kvs := KeyValues(entries);
    assert Pairs(entries) == Texts(kvs);
    assert Stringified(entries) == Assigned(kvs);
    DecodeTexts(kvs);
  }

  /** The encoded text keeps its first character and has an `=`. */
  lemma EncodedStart(entries: Entries)
    requires Encodable(entries)
    ensures var h := Join(Pairs(entries), '&'); Unhash(h) == h && '=' in h
  {
    var pairs := Pairs(entries);
    var h := Join(pairs, '&');
    JoinStartsWithFirst(pairs, '&');
    assert pairs[0] == entries[0].0 + "=" + ToStr(entries[0].1);
    assert h[..|pairs[0]|] == pairs[0];
    assert h[|entries[0].0|] == '=';
  }

  /** Encoding then decoding an encodable object gives it back, its values
      turned into strings. */
  lemma EncodeDecodeRoundTrip(entries: Entries)
    requires Encodable(entries)
    ensures EncodeSpec(Object(entries)).Success?
    ensures DecodeSpec(Some(EncodeSpec(Object(entries)).value)) == Some(Stringified(entries))
  {
    LookupMissing(entries, "anchor");
    var pairs := Pairs(entries);
    var h := Join(pairs, '&');
    assert EncodeSpec(Object(entries)) == Success(h);
    EncodedStart(entries);
    assert DecodeSpec(Some(h)) == Some(DecodeParts(Split(h, '&')));
    EncodableTexts(entries);
    SplitJoin(pairs, '&');
  }

  lemma {:induction false} JoinStartsWithFirst(parts: seq<string>, sep: char)
    requires |parts| >= 1
    ensures |Join(parts, sep)| >= |parts[0]| && Join(parts, sep)[..|parts[0]|] == parts[0]
  {
  }
}
