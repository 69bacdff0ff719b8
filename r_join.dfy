/** `r_join(components, sep)`: the components that are not null or
    undefined, in order, with a separator `<span>` between each neighbouring
    pair. The separator spans carry the keys -1, -2, ... in order. */
module RJoin {
  import opened Wrappers

  /** An entry of the joined fragment: a component, or a `<span>` holding
      the separator under its key. */
  datatype Entry<T> = Component(node: T) | Separator(key: int, sep: T)

  /** The components that are not null or undefined (`None` stands for
      both), in their order. */
  function Kept<T>(components: seq<Option<T>>): seq<T>
  {
    if components == [] then []
    else
      var rest := Kept(components[..|components| - 1]);
      var c := components[|components| - 1];
      if c.Some? then rest + [c.value] else rest
  }

  /** The length of the fragment for `k` items: one entry per item and one
      separator between each neighbouring pair. */
  function JoinedLength(k: nat): nat
  {
    if k == 0 then 0 else 2 * k - 1
  }

  /** What the fragment holds at position `j`: the item `j / 2` at even
      positions, the separator keyed `-(j / 2) - 1` at odd ones. */
  function EntryAt<T>(w: seq<T>, sep: T, j: nat): Entry<T>
    requires j / 2 < |w|
  {
    if j % 2 == 0 then Component(w[j / 2]) else Separator(-(j / 2) - 1, sep)
  }

  /** The fragment for the items `w`, position by position. */
  function Interleaved<T>(w: seq<T>, sep: T): (v: seq<Entry<T>>)
    ensures |v| == JoinedLength(|w|)
    ensures v != [] ==> v[0].Component? && v[|v| - 1].Component?
    ensures forall j :: 0 <= j < |v| - 1 ==> v[j].Component? != v[j + 1].Component?
    ensures forall j, j' :: 0 <= j < j' < |v| && v[j].Separator? && v[j'].Separator? ==> v[j].key != v[j'].key
  {
    var n := JoinedLength(|w|);
    seq(n, j requires 0 <= j < n => EntryAt(w, sep, j))
  }

  /** `r_join(components, sep)`: the first loop keeps the components that
      are not null or undefined, the second pushes each kept component and,
      after every one but the last, a separator span. */
  method RJoin<T>(components: seq<Option<T>>, sep: T) returns (v: seq<Entry<T>>)
    ensures v == Interleaved(Kept(components), sep)
  {
    var w: seq<T> := [];
    for i := 0 to |components|
      invariant w == Kept(components[..i])
    {
      assert components[..i + 1][..i] == components[..i];
      if components[i].Some? {
        w := w + [components[i].value];
      }
    }
    assert components[..|components|] == components;
    v := [];
    var n := |w|;
    for i := 0 to |w|
      invariant |v| == (if i == n && n > 0 then 2 * n - 1 else 2 * i)
      invariant forall j :: 0 <= j < |v| ==> j / 2 < |w| && v[j] == EntryAt(w, sep, j)
    {
      var x := w[i];
      v := v + [Component(x)];
      if i < n - 1 {
        v := v + [Separator(-i - 1, sep)];
      }
    }
  }

  /** Every kept item is a present component, and every present component
      is kept. */
  lemma {:induction false} KeptMembers<T>(components: seq<Option<T>>, x: T)
    ensures x in Kept(components) <==> Some(x) in components
  {
    if components != [] {
      var init := components[..|components| - 1];
      KeptMembers(init, x);
      assert components == init + [components[|components| - 1]];
    }
  }

  /** Keeping commutes with concatenation: the kept items keep their
      relative order. */
  lemma {:induction false} KeptAppend<T>(a: seq<Option<T>>, b: seq<Option<T>>)
    ensures Kept(a + b) == Kept(a) + Kept(b)
  {
    if b != [] {
      var init := b[..|b| - 1];
      KeptAppend(a, init);
      assert (a + b)[..|a + b| - 1] == a + init;
    } else {
      assert a + b == a;
    }
  }

  /** Nothing is dropped exactly when no component is null or undefined. */
  lemma {:induction false} KeptAll<T>(components: seq<Option<T>>)
    ensures |Kept(components)| <= |components|
    ensures |Kept(components)| == |components| <==> forall i :: 0 <= i < |components| ==> components[i].Some?
  {
    if components != [] {
      var init := components[..|components| - 1];
      KeptAll(init);
      if |Kept(components)| == |components| {
        forall i | 0 <= i < |components| ensures components[i].Some? {
          if i < |init| {
            assert components[i] == init[i];
          }
        }
      }
    }
  }

  /** The components of a fragment, separators left out. */
  function Components<T>(v: seq<Entry<T>>): seq<T>
  {
    if v == [] then []
    else
      var rest := Components(v[..|v| - 1]);
      if v[|v| - 1].Component? then rest + [v[|v| - 1].node] else rest
  }

  /** Adding an item to a non-empty list adds a separator and the item. */
  lemma InterleavedSnoc<T>(w: seq<T>, x: T, sep: T)
    requires w != []
    ensures Interleaved(w + [x], sep) == Interleaved(w, sep) + [Separator(-|w|, sep), Component(x)]
  {
    var u, v := Interleaved(w + [x], sep), Interleaved(w, sep) + [Separator(-|w|, sep), Component(x)];
    assert |u| == |v|;
    forall j | 0 <= j < |u| ensures u[j] == v[j] {
      if j < |u| - 2 {
        assert u[j] == EntryAt(w + [x], sep, j) && v[j] == EntryAt(w, sep, j);
      }
    }
  }

  /** Leaving out the separators gives back the items: the separators are
      the only thing the join adds. */
  lemma {:induction false} ComponentsOfInterleaved<T>(w: seq<T>, sep: T)
    ensures Components(Interleaved(w, sep)) == w
  {
    if |w| == 1 {
      assert Interleaved(w, sep) == [Component(w[0])];
      assert Components([Component(w[0])]) == Components<T>([]) + [w[0]];
    } else if |w| > 1 {
      var init := w[..|w| - 1];
      var x := w[|w| - 1];
      assert w == init + [x];
      InterleavedSnoc(init, x, sep);
      ComponentsOfInterleaved(init, sep);
      var v := Interleaved(init, sep) + [Separator(-|init|, sep), Component(x)];
      assert v[..|v| - 1] == Interleaved(init, sep) + [Separator(-|init|, sep)];
      assert (Interleaved(init, sep) + [Separator(-|init|, sep)])[..|v| - 2] == Interleaved(init, sep);
    }
  }
}
