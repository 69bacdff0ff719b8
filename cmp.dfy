/** The comparators of `util/cmp.ts`: `cmp` on JavaScript values as `<` and
    `>` order them, dates with nulls first or last, arrays and records field
    by field, and the record difference test `is_different`. */
module Cmp {
  import opened Wrappers
  import opened JsText
  import opened JsValue

  // ---------------------------------------------------------------------
  // the relational operators

  /** Code-point order on texts, the order `<` uses for two strings. */
  function LexCmp(s: string, t: string): (r: int)
    ensures -1 <= r <= 1
    ensures r == 0 <==> s == t
  {
    if s == [] && t == [] then 0
    else if s == [] then -1
    else if t == [] then 1
    else if s[0] < t[0] then -1
    else if s[0] > t[0] then 1
    else
      var r := LexCmp(s[1..], t[1..]);
      assert s == [s[0]] + s[1..] && t == [t[0]] + t[1..];
      r
  }

  lemma {:induction false} LexCmpAntisymmetric(s: string, t: string)
    ensures LexCmp(s, t) == -LexCmp(t, s)
  {
    if s != [] && t != [] && s[0] == t[0] {
      LexCmpAntisymmetric(s[1..], t[1..]);
    }
  }

  predicate AllDigits(u: string, radix: nat)
  {
    forall i :: 0 <= i < |u| ==> DigitValue(u[i]) < radix
  }

  /** `Number(s)` for integer texts: white space around an optional sign and
      decimal digits, or a `0x` hexadecimal literal; blank text is 0 and
      anything else is NaN (`None`). */
  function StringToNumber(s: string): Option<int>
  {
    var t := Trim(s);
    if t == [] then Some(0)
    else if |t| >= 2 && t[0] == '0' && (t[1] == 'x' || t[1] == 'X') then
      if |t| > 2 && AllDigits(t[2..], 16) then Some(DigitsValue(t[2..], 16)) else None
    else
      var negative := t[0] == '-';
      var u := if t[0] == '-' || t[0] == '+' then t[1..] else t;
      var magnitude: int := DigitsValue(u, 10);
      if u != [] && AllDigits(u, 10) then Some(if negative then -magnitude else magnitude)
      else None
  }

  /** The number a value turns into when compared with `<`; a date
      contributes its time, undefined is NaN. */
  function ToNumber(v: Value): Option<int>
  {
    match v
    case Undefined => None
    case Null => Some(0)
    case Bool(b) => Some(if b then 1 else 0)
    case Num(n) => Some(n)
    case Str(s) => StringToNumber(s)
    case Obj(_, time) => Some(time)
  }

  /** `cmp(a, b)`: -1 when `a < b`, 1 when `a > b`, else 0 (which includes
      every comparison with NaN). */
  function Cmp(a: Value, b: Value): (r: int)
    ensures -1 <= r <= 1
  {
    if a.Str? && b.Str? then LexCmp(a.s, b.s)
    else
      match (ToNumber(a), ToNumber(b))
      case (Some(x), Some(y)) => if x < y then -1 else if x > y then 1 else 0
      case _ => 0
  }

  /** Swapping the operands negates `cmp`. */
  lemma CmpAntisymmetric(a: Value, b: Value)
    ensures Cmp(a, b) == -Cmp(b, a)
  {
    if a.Str? && b.Str? {
      LexCmpAntisymmetric(a.s, b.s);
    }
  }

  /** Strings compare equal only when they are the same text. */
  lemma CmpStringsEqual(s: string, t: string)
    ensures Cmp(Str(s), Str(t)) == 0 <==> s == t
  {
  }

  // ---------------------------------------------------------------------
  // dates

  /** `cmp_Date(a, b, null_last)`: null and undefined are equal, and come
      before every date, or after every date when `null_last`. */
  function CmpDate(a: Value, b: Value, nullLast: bool): (r: int)
    ensures -1 <= r <= 1
  {
    if IsNullish(a) then
      if IsNullish(b) then 0 else if nullLast then 1 else -1
    else if IsNullish(b) then
      if nullLast then -1 else 1
    else Cmp(a, b)
  }

  /** `cmp_Date` is antisymmetric. */
  lemma CmpDateAntisymmetric(a: Value, b: Value, nullLast: bool)
    ensures CmpDate(a, b, nullLast) == -CmpDate(b, a, nullLast)
  {
    CmpAntisymmetric(a, b);
  }

  /** Dates compare by their time; a missing date sorts first, or last
      with `null_last`. */
  lemma CmpDateOrder(a: Value, b: Value, nullLast: bool)
    requires a.Obj? || IsNullish(a)
    requires b.Obj? || IsNullish(b)
    ensures a.Obj? && b.Obj? ==> (CmpDate(a, b, nullLast) < 0 <==> a.time < b.time)
    ensures a.Obj? && b.Obj? ==> (CmpDate(a, b, nullLast) == 0 <==> a.time == b.time)
    ensures IsNullish(a) && b.Obj? ==> CmpDate(a, b, nullLast) == (if nullLast then 1 else -1)
    ensures IsNullish(a) && IsNullish(b) ==> CmpDate(a, b, nullLast) == 0
  {
  }

  /** `timestamp_cmp(a, b, field)`: newest first by the date at `field`
      (default `timestamp`). */
  function TimestampCmp(a: map<string, Value>, b: map<string, Value>, field: Option<string>): int
  {
    var f := field.GetOr("timestamp");
    -CmpDate(Get(a, f), Get(b, f), false)
  }

  /** The newer of two dated records sorts first, and a record without the
      date sorts after every dated one. */
  lemma TimestampCmpNewestFirst(a: map<string, Value>, b: map<string, Value>, field: Option<string>)
    requires Get(a, field.GetOr("timestamp")).Obj?
    ensures var f := field.GetOr("timestamp");
      (Get(b, f).Obj? ==> (TimestampCmp(a, b, field) < 0 <==> Get(a, f).time > Get(b, f).time))
      && (IsNullish(Get(b, f)) ==> TimestampCmp(a, b, field) < 0)
  {
  }

  // ---------------------------------------------------------------------
  // arrays

  /** `a[i]`, undefined past the end. */
  function At(a: seq<Value>, i: nat): Value
  {
    if i < |a| then a[i] else Undefined
  }

  function Max(x: nat, y: nat): nat
  {
    if x < y then y else x
  }

  /** The first non-zero `cmp` of the elements from position `i` on, up to
      the longer length. */
  function CmpArrayFrom(a: seq<Value>, b: seq<Value>, i: nat): int
    decreases Max(|a|, |b|) - i
  {
    if i >= Max(|a|, |b|) then 0
    else
      var c := Cmp(At(a, i), At(b, i));
      if c != 0 then c else CmpArrayFrom(a, b, i + 1)
  }

  /** `cmp_array(a, b)`. */
  method CmpArray(a: seq<Value>, b: seq<Value>) returns (r: int)
    ensures r == CmpArrayFrom(a, b, 0)
  {
    var end := Max(|a|, |b|);
    var i := 0;
    while i < end
      invariant 0 <= i <= end
      invariant CmpArrayFrom(a, b, 0) == CmpArrayFrom(a, b, i)
    {
      var c := Cmp(At(a, i), At(b, i));
      if c != 0 {
        return c;
      }
      i := i + 1;
    }
    return 0;
  }

  /** `cmp_array` is the `cmp` of the first position where the elements
      differ, and 0 when there is none. */
  lemma {:induction false} CmpArrayFirstDifference(a: seq<Value>, b: seq<Value>, i: nat)
    requires i <= Max(|a|, |b|)
    ensures var r := CmpArrayFrom(a, b, i);
      (r == 0 <==> forall j :: i <= j < Max(|a|, |b|) ==> Cmp(At(a, j), At(b, j)) == 0)
      && (r != 0 ==>
            exists k :: (i <= k < Max(|a|, |b|) && Cmp(At(a, k), At(b, k)) == r
              && forall j :: i <= j < k ==> Cmp(At(a, j), At(b, j)) == 0))
    decreases Max(|a|, |b|) - i
  {
    if i < Max(|a|, |b|) && Cmp(At(a, i), At(b, i)) == 0 {
      CmpArrayFirstDifference(a, b, i + 1);
      var r := CmpArrayFrom(a, b, i);
      if r != 0 {
        var k :| i + 1 <= k < Max(|a|, |b|) && Cmp(At(a, k), At(b, k)) == r
          && forall j :: i + 1 <= j < k ==> Cmp(At(a, j), At(b, j)) == 0;
        assert forall j :: i <= j < k ==> Cmp(At(a, j), At(b, j)) == 0;
      }
    }
  }

  lemma {:induction false} CmpArrayAntisymmetric(a: seq<Value>, b: seq<Value>, i: nat)
    ensures CmpArrayFrom(a, b, i) == -CmpArrayFrom(b, a, i)
    decreases Max(|a|, |b|) - i
  {
    if i < Max(|a|, |b|) {
      CmpAntisymmetric(At(a, i), At(b, i));
      CmpArrayAntisymmetric(a, b, i + 1);
    }
  }

  // ---------------------------------------------------------------------
  // records

  /** The argument of `field_cmp`: one field name or a list of them. */
  datatype FieldSpec = One(field: string) | Many(fields: seq<string>)

  /** The first non-zero `cmp` of the listed fields. */
  function CmpFields(fields: seq<string>, a: map<string, Value>, b: map<string, Value>): int
  {
    if fields == [] then 0
    else
      var c := Cmp(Get(a, fields[0]), Get(b, fields[0]));
      if c != 0 then c else CmpFields(fields[1..], a, b)
  }

  /** The comparator `field_cmp(spec)` returns, applied to `a` and `b`. */
  method FieldCmp(spec: FieldSpec, a: map<string, Value>, b: map<string, Value>) returns (r: int)
    ensures spec.One? ==> r == Cmp(Get(a, spec.field), Get(b, spec.field))
    ensures spec.Many? ==> r == CmpFields(spec.fields, a, b)
  {
    if spec.One? {
      return Cmp(Get(a, spec.field), Get(b, spec.field));
    }
    var i := 0;
    while i < |spec.fields|
      invariant 0 <= i <= |spec.fields|
      invariant CmpFields(spec.fields, a, b) == CmpFields(spec.fields[i..], a, b)
    {
      var f := spec.fields[i];
      var c := Cmp(Get(a, f), Get(b, f));
      assert spec.fields[i..][1..] == spec.fields[i + 1..];
      if c != 0 {
        return c;
      }
      i := i + 1;
    }
    return 0;
  }

  /** A one-field list compares as the field alone. */
  lemma CmpFieldsSingle(f: string, a: map<string, Value>, b: map<string, Value>)
    ensures CmpFields([f], a, b) == Cmp(Get(a, f), Get(b, f))
  {
  }

  /** The list comparator is the `cmp` of the first field that differs. */
  lemma {:induction false} CmpFieldsFirstDifference(fields: seq<string>, a: map<string, Value>, b: map<string, Value>)
    ensures var r := CmpFields(fields, a, b);
      (r == 0 <==> forall i :: 0 <= i < |fields| ==> Cmp(Get(a, fields[i]), Get(b, fields[i])) == 0)
      && (r != 0 ==>
            exists k :: (0 <= k < |fields| && Cmp(Get(a, fields[k]), Get(b, fields[k])) == r
              && forall i :: 0 <= i < k ==> Cmp(Get(a, fields[i]), Get(b, fields[i])) == 0))
  {
    if fields != [] && Cmp(Get(a, fields[0]), Get(b, fields[0])) == 0 {
      var rest := fields[1..];
      CmpFieldsFirstDifference(rest, a, b);
      assert forall i :: 1 <= i < |fields| ==> fields[i] == rest[i - 1];
      var r := CmpFields(fields, a, b);
      if r != 0 {
        var k :| 0 <= k < |rest| && Cmp(Get(a, rest[k]), Get(b, rest[k])) == r
          && forall i :: 0 <= i < k ==> Cmp(Get(a, rest[i]), Get(b, rest[i])) == 0;
        assert fields[k + 1] == rest[k];
      }
    }
  }

  lemma {:induction false} CmpFieldsAntisymmetric(fields: seq<string>, a: map<string, Value>, b: map<string, Value>)
    ensures CmpFields(fields, a, b) == -CmpFields(fields, b, a)
  {
    if fields != [] {
      CmpAntisymmetric(Get(a, fields[0]), Get(b, fields[0]));
      CmpFieldsAntisymmetric(fields[1..], a, b);
    }
  }

  /** Some listed field of `r` is neither null nor undefined. */
  predicate SomeFieldSet(r: map<string, Value>, fields: seq<string>)
  {
    exists i :: 0 <= i < |fields| && !IsNullish(Get(r, fields[i]))
  }

  /** Some listed field differs by `!==`. */
  predicate SomeFieldDiffers(a: map<string, Value>, b: map<string, Value>, fields: seq<string>)
  {
    exists i :: 0 <= i < |fields| && !StrictEq(Get(a, fields[i]), Get(b, fields[i]))
  }

  /** What `is_different` decides: two missing records are the same; a
      missing record differs from a present one exactly when the present
      one sets a listed field; two records differ when a listed field does. */
  predicate Different(a: Option<map<string, Value>>, b: Option<map<string, Value>>, fields: seq<string>)
  {
    if a.None? then b.Some? && SomeFieldSet(b.value, fields)
    else if b.None? then SomeFieldSet(a.value, fields)
    else SomeFieldDiffers(a.value, b.value, fields)
  }

  /** `is_different(a, b, fields)`; a missing record is null or undefined. */
  method IsDifferent(a: Option<map<string, Value>>, b: Option<map<string, Value>>, fields: seq<string>) returns (r: bool)
    ensures r == Different(a, b, fields)
  {
    if a.None? {
      if b.None? {
        return false;
      }
      for i := 0 to |fields|
        invariant forall j :: 0 <= j < i ==> IsNullish(Get(b.value, fields[j]))
      {
        if !IsNullish(Get(b.value, fields[i])) {
          return true;
        }
      }
      return false;
    }
    if b.None? {
      for i := 0 to |fields|
        invariant forall j :: 0 <= j < i ==> IsNullish(Get(a.value, fields[j]))
      {
        if !IsNullish(Get(a.value, fields[i])) {
          return true;
        }
      }
      return false;
    }
    for i := 0 to |fields|
      invariant forall j :: 0 <= j < i ==> StrictEq(Get(a.value, fields[j]), Get(b.value, fields[j]))
    {
      if !StrictEq(Get(a.value, fields[i]), Get(b.value, fields[i])) {
        return true;
      }
    }
    return false;
  }

  /** `all_fields_equal(a, b, fields)`. */
  method AllFieldsEqual(a: Option<map<string, Value>>, b: Option<map<string, Value>>, fields: seq<string>) returns (r: bool)
    ensures r == !Different(a, b, fields)
  {
    var d := IsDifferent(a, b, fields);
    r := !d;
  }

  /** The difference test does not depend on the order of its arguments. */
  lemma DifferentSymmetric(a: Option<map<string, Value>>, b: Option<map<string, Value>>, fields: seq<string>)
    ensures Different(a, b, fields) == Different(b, a, fields)
  {
    if a.Some? && b.Some? {
      if SomeFieldDiffers(a.value, b.value, fields) {
        var i :| 0 <= i < |fields| && !StrictEq(Get(a.value, fields[i]), Get(b.value, fields[i]));
        assert !StrictEq(Get(b.value, fields[i]), Get(a.value, fields[i]));
      }
      if SomeFieldDiffers(b.value, a.value, fields) {
        var i :| 0 <= i < |fields| && !StrictEq(Get(b.value, fields[i]), Get(a.value, fields[i]));
        assert !StrictEq(Get(a.value, fields[i]), Get(b.value, fields[i]));
      }
    }
  }

  /** A record is never different from itself. */
  lemma DifferentIrreflexive(a: Option<map<string, Value>>, fields: seq<string>)
    ensures !Different(a, a, fields)
  {
  }

  /** Fields outside the list never matter. */
  lemma DifferentOnlyListedFields(a: map<string, Value>, b: map<string, Value>, fields: seq<string>)
    requires forall i :: 0 <= i < |fields| ==> Get(a, fields[i]) == Get(b, fields[i])
    ensures !Different(Some(a), Some(b), fields)
  {
  }
}
