/** The chat element of a whiteboard. Its `data` object holds the messages
    under their numbers and each user's draft under the user's account id (a
    UUID). The numbering reads the numeric keys; clearing the chat deletes
    the messages and the drafts in place. */
module ChatStatic {
  import opened Wrappers
  import opened JsText
  import opened JsValue
  import opened Sorting

  type Data = map<string, Value>

  predicate IsHexDigit(c: char)
  {
    '0' <= c <= '9' || 'a' <= c <= 'f' || 'A' <= c <= 'F'
  }

  /** A UUID in its 36-character text form: hex digits in groups of
      8-4-4-4-12 separated by dashes. */
  predicate IsUuid(s: string)
  {
    |s| == 36
    && forall i :: 0 <= i < 36 ==>
         if i == 8 || i == 13 || i == 18 || i == 23 then s[i] == '-' else IsHexDigit(s[i])
  }

  /** The keys of `element.data ?? {}`. */
  function Fields(data: Option<Data>): set<string>
  {
    if data.None? then {} else data.value.Keys
  }

  /** `n` is the largest number `num` reads from the given keys, or -1
      when that is larger. */
  ghost predicate IsLargestRead(keys: set<string>, num: string -> Option<int>, n: int)
  {
    -1 <= n
    && (forall f :: f in keys && num(f).Some? ==> num(f).value <= n)
    && (n == -1 || exists f :: f in keys && num(f) == Some(n))
  }

  /** `n` is the largest number `parseInt` reads from the given keys, or -1
      when that is larger. */
  ghost predicate IsLastNumber(keys: set<string>, n: int)
  {
    IsLargestRead(keys, ParseInt, n)
  }

  /** The keys that are not UUIDs. */
  function NonUuid(keys: set<string>): set<string>
  {
    set f | f in keys && !IsUuid(f)
  }

  /** `lastMessageNumber(element)`, as written: every key counts, drafts
      included. */
  method LastMessageNumber(data: Option<Data>) returns (n: int)
    ensures IsLastNumber(Fields(data), n)
  {
    n := MaxNumber(Fields(data), ParseInt);
  }

  /** `lastMessageNumber(element)` with draft keys skipped, as
      `messageNumbers` skips them. */
  method LastMessageNumberSkippingDrafts(data: Option<Data>) returns (n: int)
    ensures IsLastNumber(NonUuid(Fields(data)), n)
  {
    n := MaxNumber(NonUuid(Fields(data)), ParseInt);
  }

  /** The loop `n = Math.max(n, parseInt(field))` over the keys, for
      any reading `num` of a key. */
  method MaxNumber(keys: set<string>, num: string -> Option<int>) returns (n: int)
    ensures IsLargestRead(keys, num, n)
  {
    n := -1;
    var todo := keys;
    while todo != {}
      invariant todo <= keys
      invariant IsLargestRead(keys - todo, num, n)
      decreases |todo|
    {
      var f :| f in todo;
      var k := num(f);
      LargestReadAdd(keys - todo, num, f, n);
      assert keys - (todo - {f}) == (keys - todo) + {f};
      if k.Some? && k.value > n {
        n := k.value;
      }
      todo := todo - {f};
    }
    assert keys - todo == keys;
  }

  /** One more key: the larger of the last number and the key's number. */
  lemma LargestReadAdd(done: set<string>, num: string -> Option<int>, f: string, n: int)
    requires IsLargestRead(done, num, n)
    ensures var k := num(f);
      IsLargestRead(done + {f}, num, if k.Some? && k.value > n then k.value else n)
  {
    var k := num(f);
    var m := if k.Some? && k.value > n then k.value else n;
    if m != -1 {
      if m == n {
        var g :| g in done && num(g) == Some(n);
        assert g in done + {f};
      } else {
        assert f in done + {f};
      }
    }
  }

  /** The keys that give a message number: not a UUID, and a number
      `num` reads (`parseInt` in the source). */
  function Numbered(keys: set<string>, num: string -> Option<int>): set<string>
  {
    set f | f in keys && !IsUuid(f) && num(f).Some?
  }

  /** The numbered keys that read as `x`. */
  function KeysReading(keys: set<string>, num: string -> Option<int>, x: int): set<string>
  {
    set f | f in Numbered(keys, num) && num(f) == Some(x)
  }

  function IntLe(a: int, b: int): bool
  {
    a <= b
  }

  /** `messageNumbers(element)`: one number per non-UUID key with a leading
      integer, ascending. */
  method MessageNumbers(data: Option<Data>) returns (r: seq<int>)
    ensures forall i, j :: 0 <= i < j < |r| ==> r[i] <= r[j]
    ensures forall x :: x in r <==> exists f :: f in Fields(data) && !IsUuid(f) && ParseInt(f) == Some(x)
    ensures |r| == |Numbered(Fields(data), ParseInt)|
    ensures forall x :: multiset(r)[x] == |KeysReading(Fields(data), ParseInt, x)|
  {
    var v := CollectNumbers(Fields(data), ParseInt);
    r := SortBy(v, IntLe);
    SortBySorted(v, IntLe);
    AdjacentToPairwise(r, IntLe);
    assert forall x :: x in r <==> x in multiset(r);
    assert forall x :: x in v <==> x in multiset(v);
  }

  /** The loop that pushes the number of every numbered key. */
  method CollectNumbers(keys: set<string>, num: string -> Option<int>) returns (v: seq<int>)
    ensures forall x :: x in v <==> exists f :: f in keys && !IsUuid(f) && num(f) == Some(x)
    ensures |v| == |Numbered(keys, num)|
    ensures forall x :: multiset(v)[x] == |KeysReading(keys, num, x)|
  {
    v := [];
    var todo := keys;
    while todo != {}
      invariant todo <= keys
      invariant forall x :: x in v <==> exists f :: f in keys - todo && !IsUuid(f) && num(f) == Some(x)
      invariant |v| == |Numbered(keys - todo, num)|
      invariant forall x :: multiset(v)[x] == |KeysReading(keys - todo, num, x)|
      decreases |todo|
    {
      var f :| f in todo;
      NumberedAdd(keys - todo, num, f);
      CollectedAdd(keys - todo, num, f, v);
      CountedAdd(keys - todo, num, f, v);
      assert keys - (todo - {f}) == (keys - todo) + {f};
      var k := num(f);
      if !IsUuid(f) && k.Some? {
        v := v + [k.value];
      }
      todo := todo - {f};
    }
    assert keys - todo == keys;
  }

  /** The numbers of the visited keys, one more key visited. */
  lemma CollectedAdd(done: set<string>, num: string -> Option<int>, f: string, v: seq<int>)
    requires forall x :: x in v <==> exists f :: f in done && !IsUuid(f) && num(f) == Some(x)
    ensures var w := if !IsUuid(f) && num(f).Some? then v + [num(f).value] else v;
      forall x :: x in w <==> exists g :: g in done + {f} && !IsUuid(g) && num(g) == Some(x)
  {
    var w := if !IsUuid(f) && num(f).Some? then v + [num(f).value] else v;
    forall x
      ensures x in w <==> exists g :: g in done + {f} && !IsUuid(g) && num(g) == Some(x)
    {
      if exists g :: g in done + {f} && !IsUuid(g) && num(g) == Some(x) {
        var g :| g in done + {f} && !IsUuid(g) && num(g) == Some(x);
        if g != f {
          assert g in done;
        }
      }
      if x in v {
        var g :| g in done && !IsUuid(g) && num(g) == Some(x);
        assert g in done + {f};
      } else if x in w {
        assert f in done + {f};
      }
    }
  }

  /** How often each number was pushed, one more key visited. */
  lemma CountedAdd(done: set<string>, num: string -> Option<int>, f: string, v: seq<int>)
    requires f !in done
    requires forall x :: multiset(v)[x] == |KeysReading(done, num, x)|
    ensures var w := if !IsUuid(f) && num(f).Some? then v + [num(f).value] else v;
      forall x :: multiset(w)[x] == |KeysReading(done + {f}, num, x)|
  {
    var w := if !IsUuid(f) && num(f).Some? then v + [num(f).value] else v;
    forall x
      ensures multiset(w)[x] == |KeysReading(done + {f}, num, x)|
    {
      if !IsUuid(f) && num(f) == Some(x) {
        assert KeysReading(done + {f}, num, x) == KeysReading(done, num, x) + {f};
        assert f !in KeysReading(done, num, x);
      } else {
        assert KeysReading(done + {f}, num, x) == KeysReading(done, num, x);
      }
    }
  }

  lemma NumberedAdd(done: set<string>, num: string -> Option<int>, f: string)
    requires f !in done
    ensures !IsUuid(f) && num(f).Some? ==> Numbered(done + {f}, num) == Numbered(done, num) + {f} && f !in Numbered(done, num)
    ensures IsUuid(f) || num(f).None? ==> Numbered(done + {f}, num) == Numbered(done, num)
  {
  }

  /** With drafts skipped, the last number is the last of the listed message
      numbers, or -1 when there is none or it is below -1; this holds for
      any reading `num` of the keys, `parseInt` among them. */
  lemma LastNumberIsLastListed(data: Option<Data>, num: string -> Option<int>, n: int, r: seq<int>)
    requires IsLargestRead(NonUuid(Fields(data)), num, n)
    requires forall i, j :: 0 <= i < j < |r| ==> r[i] <= r[j]
    requires forall x :: x in r <==> exists f :: f in Fields(data) && !IsUuid(f) && num(f) == Some(x)
    ensures r == [] ==> n == -1
    ensures r != [] ==> n == if r[|r| - 1] < -1 then -1 else r[|r| - 1]
  {
    if n != -1 {
      var f :| f in NonUuid(Fields(data)) && num(f) == Some(n);
      assert n in r;
    }
    if r != [] {
      var last := r[|r| - 1];
      assert last <= n by {
        assert last in r;
        var g :| g in Fields(data) && !IsUuid(g) && num(g) == Some(last);
        assert g in NonUuid(Fields(data));
      }
      if n != -1 {
        assert n <= last by {
          var i :| 0 <= i < |r| && r[i] == n;
          assert i == |r| - 1 || r[i] <= r[|r| - 1];
        }
      }
    }
  }

  /** An account id that starts with a decimal digit. */
  const SampleDraft: string := "5aaaaaaa" + "-" + "aaaa" + "-" + "aaaa" + "-" + "aaaa" + "-" + "aaaaaaaaaaaa"

  /** A draft saved under an account id that starts with a decimal digit
      takes part in the as-written numbering: beside message 0, the draft
      of account `SampleDraft` makes the last number 5, while skipping
      drafts gives 0. */
  lemma DraftKeyCountsAsMessage(n: int, m: int)
    requires IsLastNumber(Fields(Some(SampleChat())), n)
    requires IsLastNumber(NonUuid(Fields(Some(SampleChat()))), m)
    ensures n == 5 && m == 0
  {
    SampleKeys();
    ParseIntOfIntToString(0);
    assert IntToString(0) == "0";
    SampleDraftReadsFive();
    assert SampleDraft in Fields(Some(SampleChat()));
    assert "0" in NonUuid(Fields(Some(SampleChat())));
  }

  /** Message 0 and the draft of account `SampleDraft`. */
  function SampleChat(): Data
  {
    map["0" := Str("hi"), SampleDraft := Null]
  }

  lemma SampleKeys()
    ensures Fields(Some(SampleChat())) == {"0", SampleDraft}
    ensures NonUuid(Fields(Some(SampleChat()))) == {"0"}
  {
    SampleDraftIsUuid();
    assert !IsUuid("0");
  }

  lemma SampleDraftIsUuid()
    ensures IsUuid(SampleDraft)
  {
    assert AllHex("5aaaaaaa");
    assert AllHex("aaaa");
    assert AllHex("aaaaaaaaaaaa");
    UuidOfGroups("5aaaaaaa", "aaaa", "aaaa", "aaaa", "aaaaaaaaaaaa");
  }

  /** Every character is a hex digit. */
  predicate AllHex(s: string)
  {
    forall i :: 0 <= i < |s| ==> IsHexDigit(s[i])
  }

  /** Five groups of hex digits of lengths 8, 4, 4, 4 and 12, joined by
      dashes, form a UUID. */
  lemma UuidOfGroups(a: string, b: string, c: string, d: string, e: string)
    requires |a| == 8 && |b| == 4 && |c| == 4 && |d| == 4 && |e| == 12
    requires AllHex(a) && AllHex(b) && AllHex(c) && AllHex(d) && AllHex(e)
    ensures IsUuid(a + "-" + b + "-" + c + "-" + d + "-" + e)
  {
    var s := a + "-" + b + "-" + c + "-" + d + "-" + e;
    forall i | 0 <= i < 36
      ensures if i == 8 || i == 13 || i == 18 || i == 23 then s[i] == '-' else IsHexDigit(s[i])
    {
      if i < 8 { assert s[i] == a[i]; }
      else if 8 < i < 13 { assert s[i] == b[i - 9]; }
      else if 13 < i < 18 { assert s[i] == c[i - 14]; }
      else if 18 < i < 23 { assert s[i] == d[i - 19]; }
      else if 23 < i { assert s[i] == e[i - 24]; }
    }
  }

  /** `parseInt` reads 5 from the sample account id. */
  lemma SampleDraftReadsFive()
    ensures ParseInt(SampleDraft) == Some(5)
  {
    var u := SampleDraft;
    assert u[0] == '5' && u[1] == 'a';
    NumeralHasNoSpace(u);
    assert DigitPrefix(u[1..], 10) == [];
    assert DigitPrefix(u, 10) == "5";
    assert DigitsValue("5", 10) == 5 by {
      assert "5"[..0] == [];
    }
  }

  // ---------------------------------------------------------------------
  // clearChat

  /** The key `String(parseInt(f))` that visiting `f` deletes, if `f` has
      a leading integer. */
  function NumeralOf(f: string): Option<string>
  {
    match ParseInt(f)
    case None => None
    case Some(n) => Some(IntToString(n))
  }

  /** The keys deleted once the loop has visited `keys`: each visited key
      for which `draft` holds, and the key `numeral` names for each visited
      key. */
  function DeletedBy(keys: set<string>, draft: string -> bool, numeral: string -> Option<string>): set<string>
  {
    (set f | f in keys && draft(f)) + (set f | f in keys && numeral(f).Some? :: numeral(f).value)
  }

  /** `element.data` after the clearing loop: UUID keys and the numerals of
      all keys with a leading integer are gone. */
  function Cleared(d: Data): Data
  {
    d - DeletedBy(d.Keys, IsUuid, NumeralOf)
  }

  lemma DeletedByStep(keys: set<string>, f: string, draft: string -> bool, numeral: string -> Option<string>)
    ensures DeletedBy(keys + {f}, draft, numeral) ==
      DeletedBy(keys, draft, numeral) + (if draft(f) then {f} else {})
        + (if numeral(f).Some? then {numeral(f).value} else {})
  {
    if numeral(f).Some? {
      assert numeral(f).value in DeletedBy(keys + {f}, draft, numeral);
    }
  }

  /** One turn of the clearing loop keeps the data equal to the original
      less what the visited keys delete: the key itself if it is a UUID,
      then the numeral of its leading integer `k`. */
  lemma ClearStep(d: Data, todo: set<string>, f: string, k: Option<int>, before: Data, mid: Data, after: Data)
    requires f in todo && todo <= d.Keys && k == ParseInt(f)
    requires before == d - DeletedBy(d.Keys - todo, IsUuid, NumeralOf)
    requires if IsUuid(f) then mid == before - {f} else mid == before
    requires if k.Some? then after == mid - {IntToString(k.value)} else after == mid
    ensures after == d - DeletedBy(d.Keys - (todo - {f}), IsUuid, NumeralOf)
  {
    var done := d.Keys - todo;
    assert d.Keys - (todo - {f}) == done + {f};
    DeletedByStep(done, f, IsUuid, NumeralOf);
    var u: set<string> := if IsUuid(f) then {f} else {};
    var v: set<string> := if k.Some? then {IntToString(k.value)} else {};
    assert NumeralOf(f).Some? ==> v == {NumeralOf(f).value};
    var x := DeletedBy(done, IsUuid, NumeralOf);
    RemoveNothing(before);
    RemoveNothing(mid);
    assert mid == before - u;
    assert after == mid - v;
    RemoveMore(d, x, u);
    RemoveMore(d, x + u, v);
  }

  lemma RemoveNothing<K, V>(m: map<K, V>)
    ensures m - {} == m
  {
  }

  lemma RemoveMore<K, V>(m: map<K, V>, a: set<K>, b: set<K>)
    ensures (m - a) - b == m - (a + b)
  {
  }

  /** The loop over the fields of `d`, deleting as it goes. Deleting a key
      the loop has not reached yet does not stop the loop from visiting it:
      `for ... in` enumerates the keys that are there at the start, except
      that a deleted key is skipped; a skipped numeral would only delete
      itself again (a numeral reads back as itself), and a skipped UUID is
      never a numeral, so visiting every original key gives the same
      result. */
  method ClearLoop(d: Data) returns (current: Data)
    ensures current == Cleared(d)
  {
    current := d;
    var todo := d.Keys;
    assert DeletedBy(d.Keys - todo, IsUuid, NumeralOf) == {};
    while todo != {}
      invariant todo <= d.Keys
      invariant current == d - DeletedBy(d.Keys - todo, IsUuid, NumeralOf)
      decreases |todo|
    {
      var field :| field in todo;
      ghost var before := current;
      if IsUuid(field) {
        current := current - {field};
      }
      ghost var mid := current;
      var k := ParseInt(field);
      if k.Some? {
        current := current - {IntToString(k.value)};
      }
      ClearStep(d, todo, field, k, before, mid, current);
      todo := todo - {field};
    }
    assert d.Keys - todo == d.Keys;
  }

  /** A whiteboard element; only its type and data take part here. */
  class Element {
    var kind: string
    var data: Option<Data>

    constructor(kind: string, data: Option<Data>)
      ensures this.kind == kind && this.data == data
    {
      this.kind := kind;
      this.data := data;
    }

    /** `clearChat(element)`: nothing happens unless the element has data
        and is a chat; otherwise every UUID key is deleted, and for every
        key with a leading integer `k` the key `String(k)` is deleted. */
    method ClearChat()
      modifies this
      ensures kind == old(kind)
      ensures old(data).None? || old(kind) != "chat" ==> data == old(data)
      ensures old(data).Some? && old(kind) == "chat" ==> data == Some(Cleared(old(data).value))
    {
      if data.None? || kind != "chat" {
        return;
      }
      var current := ClearLoop(data.value);
      data := Some(current);
    }
  }

  /** Clearing deletes every message key (a key that is `String(n)`) and
      every draft, and keeps every other key that has no leading integer,
      with its value. */
  lemma ClearedKeys(d: Data, k: string)
    ensures k in d && ParseInt(k).Some? && k == IntToString(ParseInt(k).value) ==> k !in Cleared(d)
    ensures IsUuid(k) ==> k !in Cleared(d)
    ensures k in d && !IsUuid(k) && ParseInt(k).None? ==> k in Cleared(d) && Cleared(d)[k] == d[k]
  {
    var deleted := DeletedBy(d.Keys, IsUuid, NumeralOf);
    if k in d && ParseInt(k).Some? && k == IntToString(ParseInt(k).value) {
      assert NumeralOf(k) == Some(k);
      assert k in deleted;
    }
    if k in d && !IsUuid(k) && ParseInt(k).None? {
      if k in deleted {
        var f :| f in d.Keys && NumeralOf(f).Some? && k == NumeralOf(f).value;
        ParseIntOfIntToString(ParseInt(f).value);
        assert false;
      }
    }
  }
}
