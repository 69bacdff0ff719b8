/** The static rendering of a Sage worksheet cell's output: the numbered
    output messages are put in numeric order, interactive-only flags are
    dropped, and the list is coalesced: `clear` empties it, `delete_last`
    removes the last entry, and a lone stdout (stderr) text after another
    stdout (stderr) message is appended to it. */
module SagewsOutput {
  import opened JsText
  import opened JsValue
  import opened Sorting

  /** An output message: its fields by name. */
  type Message = map<string, Value>

  /** The cell output: message number (as text) and message, in the order
      the object enumerates them. */
  type Output = seq<(string, Message)>

  /** Flags that make no sense in a static rendering; they are deleted. */
  const Strip: seq<string> := ["done", "error", "once", "javascript", "hide", "show"]

  /** Whether a field survives the deletion loop: flags are deleted only
      when they are neither null nor undefined. */
  predicate Kept(m: Message, k: string)
    requires k in m
  {
    !(k in Strip && !IsNullish(m[k]))
  }

  /** A message after the deletion loop. */
  function StripFlags(m: Message): (r: Message)
    ensures forall k :: k in r <==> k in m && Kept(m, k)
    ensures forall k :: k in r ==> r[k] == m[k]
  {
    map k | k in m && Kept(m, k) :: m[k]
  }

  /** `cmp(parseInt(a), parseInt(b)) <= 0`: when either key is not a number
      the comparison is NaN, which orders nothing, so both ways hold. */
  function KeyLe(a: (string, Message), b: (string, Message)): bool
  {
    var x, y := ParseInt(a.0), ParseInt(b.0);
    !(x.Some? && y.Some? && x.value > y.value)
  }

  lemma KeyLeTotal(output: Output)
    ensures TotalOn(output, KeyLe)
  {
  }

  /** Whether a message is a lone stdout (stderr) text that joins a previous
      message with the same field. */
  predicate Joins(r: seq<Message>, m: Message, field: string)
  {
    |r| > 0 && |m| == 1 && !IsNullish(Get(m, field)) && !IsNullish(Get(r[|r| - 1], field))
  }

  /** One turn of the coalescing loop, on a message whose flags are gone. */
  function Step(r: seq<Message>, m: Message): (r': seq<Message>)
    ensures |r'| <= |r| + 1
    ensures forall i :: 0 <= i < |r'| - 1 ==> i < |r| && r'[i] == r[i]
  {
    if |m| == 0 then r
    else if Truthy(Get(m, "clear")) then []
    else if Truthy(Get(m, "delete_last")) then (if r == [] then r else r[..|r| - 1])
    else if Joins(r, m, "stdout") then r[..|r| - 1] + [map["stdout" := Add(Get(r[|r| - 1], "stdout"), Get(m, "stdout"))]]
    else if Joins(r, m, "stderr") then r[..|r| - 1] + [map["stderr" := Add(Get(r[|r| - 1], "stderr"), Get(m, "stderr"))]]
    else r + [m]
  }

  /** The list after the loop has run over `ms`, starting from `r`. */
  function Run(r: seq<Message>, ms: seq<Message>): seq<Message>
  {
    if ms == [] then r else Step(Run(r, ms[..|ms| - 1]), StripFlags(ms[|ms| - 1]))
  }

  /** The coalesced list after the given messages, in order. */
  function Coalesce(ms: seq<Message>): seq<Message>
  {
    Run([], ms)
  }

  function Messages(v: Output): (ms: seq<Message>)
    ensures |ms| == |v|
  {
    seq(|v|, i requires 0 <= i < |v| => v[i].1)
  }

  /** `processMessages(output)`. */
  method ProcessMessages(output: Output) returns (r: seq<Message>)
    ensures r == Coalesce(Messages(SortBy(output, KeyLe)))
  {
    var v := SortBy(output, KeyLe);
    ghost var ms := Messages(v);
    r := [];
    for i := 0 to |v|
      invariant r == Run([], ms[..i])
    {
      RunOneMore(ms, i);
      var m := DeleteFlags(v[i].1);
      r := ApplyMessage(r, m);
    }
    assert ms[..|v|] == ms;
  }

  /** Running over one more message is one more step. */
  lemma RunOneMore(ms: seq<Message>, i: nat)
    requires i < |ms|
    ensures Run([], ms[..i + 1]) == Step(Run([], ms[..i]), StripFlags(ms[i]))
  {
    assert ms[..i + 1][..i] == ms[..i];
  }

  /** The body of the coalescing loop: the list after one message whose
      flags are gone. It computes `Step`, the loop's specification. */
  method ApplyMessage(r0: seq<Message>, m: Message) returns (r: seq<Message>)
    ensures r == Step(r0, m)
  {
    r := r0;
    var n := |m|;
    if n == 0 {
    } else if Truthy(Get(m, "clear")) {
      r := [];
    } else if Truthy(Get(m, "delete_last")) {
      if |r| > 0 {
        r := r[..|r| - 1];
      }
    } else if |r| > 0 && n == 1 && !IsNullish(Get(m, "stdout")) && !IsNullish(Get(r[|r| - 1], "stdout")) {
      var joined: Message := map["stdout" := Add(Get(r[|r| - 1], "stdout"), Get(m, "stdout"))];
      assert r[|r| - 1 := joined] == r[..|r| - 1] + [joined];
      r := r[|r| - 1 := joined];
    } else if |r| > 0 && n == 1 && !IsNullish(Get(m, "stderr")) && !IsNullish(Get(r[|r| - 1], "stderr")) {
      var joined: Message := map["stderr" := Add(Get(r[|r| - 1], "stderr"), Get(m, "stderr"))];
      assert r[|r| - 1 := joined] == r[..|r| - 1] + [joined];
      r := r[|r| - 1 := joined];
    } else {
      r := r + [m];
    }
  }

  /** The loop that deletes each flag that is set. */
  method DeleteFlags(m0: Message) returns (m: Message)
    ensures m == StripFlags(m0)
  {
    m := m0;
    for j := 0 to |Strip|
      invariant forall k :: k in m <==> k in m0 && !(k in Strip[..j] && !IsNullish(m0[k]))
      invariant forall k :: k in m ==> m[k] == m0[k]
    {
      var s := Strip[j];
      if s in m && !IsNullish(m[s]) {
        m := m - {s};
      }
      assert Strip[..j + 1] == Strip[..j] + [s];
    }
    assert Strip[..|Strip|] == Strip;
  }

  // ---------------------------------------------------------------------
  // properties

  /** Messages come out in ascending numeric key order. */
  lemma ProcessedInKeyOrder(output: Output)
    ensures AdjacentSorted(SortBy(output, KeyLe), KeyLe)
    ensures multiset(SortBy(output, KeyLe)) == multiset(output)
  {
    KeyLeTotal(output);
    SortBySorted(output, KeyLe);
  }

  /** Coalescing never makes the list longer than the input. */
  lemma {:induction false} CoalesceBounded(r: seq<Message>, ms: seq<Message>)
    ensures |Run(r, ms)| <= |r| + |ms|
  {
    if ms != [] {
      CoalesceBounded(r, ms[..|ms| - 1]);
    }
  }

  /** A message without any set flag. */
  predicate Clean(m: Message)
  {
    forall k :: k in m ==> Kept(m, k)
  }

  /** No message left in the result carries a flag that was set. */
  lemma {:induction false} NoFlagsLeft(r: seq<Message>, ms: seq<Message>)
    requires forall i :: 0 <= i < |r| ==> Clean(r[i])
    ensures forall i :: 0 <= i < |Run(r, ms)| ==> Clean(Run(r, ms)[i])
  {
    if ms != [] {
      NoFlagsLeft(r, ms[..|ms| - 1]);
    }
  }

  predicate IsClear(m: Message)
  {
    |StripFlags(m)| > 0 && Truthy(Get(StripFlags(m), "clear"))
  }

  /** Running over two stretches of messages is running over the first,
      then over the second from where the first left off. */
  lemma {:induction false} RunAppend(r: seq<Message>, xs: seq<Message>, ys: seq<Message>)
    ensures Run(r, xs + ys) == Run(Run(r, xs), ys)
  {
    if ys == [] {
      assert xs + ys == xs;
    } else {
      var n := |ys|;
      RunAppend(r, xs, ys[..n - 1]);
      assert (xs + ys)[..|xs + ys| - 1] == xs + ys[..n - 1];
    }
  }

  /** A clear message forgets everything before it. */
  lemma ClearForgetsBefore(before: seq<Message>, c: Message, after: seq<Message>)
    requires IsClear(c)
    ensures Coalesce(before + [c] + after) == Coalesce(after)
  {
    RunAppend([], before + [c], after);
    RunAppend([], before, [c]);
    assert [c][..0] == [];
  }

  /** Concatenation of texts. */
  function Concat(ss: seq<string>): string
  {
    if ss == [] then "" else Concat(ss[..|ss| - 1]) + ss[|ss| - 1]
  }

  function StdoutMessages(ss: seq<string>): (ms: seq<Message>)
    ensures |ms| == |ss|
  {
    seq(|ss|, i requires 0 <= i < |ss| => map["stdout" := Str(ss[i])])
  }

  /** A run of plain stdout texts renders as one stdout message holding all
      of them in order. */
  lemma {:induction false} StdoutCoalesces(ss: seq<string>)
    requires ss != []
    ensures Coalesce(StdoutMessages(ss)) == [map["stdout" := Str(Concat(ss))]]
  {
    var n := |ss|;
    var ms := StdoutMessages(ss);
    var m: Message := map["stdout" := Str(ss[n - 1])];
    assert ms[n - 1] == m;
    assert StripFlags(m) == m;
    assert ms[..n - 1] == StdoutMessages(ss[..n - 1]);
    if n > 1 {
      StdoutCoalesces(ss[..n - 1]);
      assert Joins(Coalesce(ms[..n - 1]), m, "stdout");
    } else {
      assert ms[..n - 1] == [];
      assert ss[..n - 1] == [];
      assert Concat(ss) == ss[0];
      assert "clear" !in m && "delete_last" !in m;
      assert Run([], ms) == Step(Run([], []), m);
      assert Step([], m) == [m];
    }
  }
}
