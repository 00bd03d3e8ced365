/** The substitution engine: `replace` in yambler/src/main.rs. A string
    `SNIPPET_<key>` is replaced by the registered value of `<key>`, itself
    substituted; arrays splice a placeholder that became an array; hashes
    substitute their values and keep their keys; a trail of the keys being
    expanded detects circular references.

    `Resolve` (with `ResolveItems` and `ResolveValues`) is the specification: the
    trail is a plain value there, since a successful call gives it back as it
    found it. The method `Replace` is the engine as the source runs it: the
    trail is threaded through every call, pushed before a snippet is expanded and
    popped after, and it is proved to compute `Resolve`. */
module Substitution {
  import opened YamlValue
  import opened Snippets

  const Prefix: string := "SNIPPET_"

  /** A placeholder is a string that starts with the prefix
      (yambler/src/main.rs:53). */
  predicate IsPlaceholder(v: string) {
    Prefix <= v
  }

  /** The key a placeholder names: the text after the 8-character prefix
      (yambler/src/main.rs:54). */
  function KeyOf(v: string): (key: string)
    requires IsPlaceholder(v)
    ensures v == Prefix + key
  {
    v[8..]
  }

  /** The registry keys that are not on the trail: the keys that may still be
      expanded. A key is pushed only when it is registered and not on the trail,
      so every expansion removes one key from this set; together with the size of
      the value it bounds the recursion. */
  function Unvisited(snips: Registry, trail: seq<string>): set<string> {
    snips.Keys - (set k | k in trail)
  }

  /** The outcome of substituting each element, flattening one level. */
  function Splice(original: Yaml, replaced: Yaml): seq<Yaml> {
    if original.String? && replaced.Array? then replaced.items else [replaced]
  }

  function Resolve(trail: seq<string>, input: Yaml, snips: Registry): Result<Yaml>
    decreases Unvisited(snips, trail), input
  {
    match input
    case String(v) =>
      if !IsPlaceholder(v) then Ok(input)
      else
        var key := KeyOf(v);
        if key !in snips then Err(NoSnippet(v))
        else if key in trail then Err(CircularReplacement(trail, key))
        else
          assert Unvisited(snips, trail + [key]) < Unvisited(snips, trail) by {
            assert key in Unvisited(snips, trail) - Unvisited(snips, trail + [key]);
          }
          Resolve(trail + [key], snips[key], snips)
    case Array(a) =>
      (match ResolveItems(trail, a, snips)
       case Ok(items) => Ok(Array(items))
       case Err(e) => Err(e))
    case Hash(h) =>
      (match ResolveValues(trail, h, snips)
       case Ok(entries) => Ok(Hash(entries))
       case Err(e) => Err(e))
    case _ => Ok(input)
  }

  function ResolveItems(trail: seq<string>, a: seq<Yaml>, snips: Registry): Result<seq<Yaml>>
    decreases Unvisited(snips, trail), a
  {
    if a == [] then Ok([])
    else
      match ResolveItems(trail, a[..|a| - 1], snips)
      case Err(e) => Err(e)
      case Ok(front) =>
        match Resolve(trail, a[|a| - 1], snips)
        case Err(e) => Err(e)
        case Ok(r) => Ok(front + Splice(a[|a| - 1], r))
  }

  function ResolveValues(trail: seq<string>, h: seq<(Yaml, Yaml)>, snips: Registry): Result<seq<(Yaml, Yaml)>>
    decreases Unvisited(snips, trail), h
  {
    if h == [] then Ok([])
    else
      match ResolveValues(trail, h[..|h| - 1], snips)
      case Err(e) => Err(e)
      case Ok(front) =>
        var (k, v) := h[|h| - 1];
        assert h[|h| - 1] decreases to v;
        match Resolve(trail, v, snips)
        case Err(e) => Err(e)
        case Ok(v') => Ok(front + [(k, v')])
  }

  /** Joins two outcomes in order: the first error wins, otherwise the results are
      concatenated. */
  function Append<T>(x: Result<seq<T>>, y: Result<seq<T>>): Result<seq<T>> {
    if x.Err? then x else if y.Err? then y else Ok(x.value + y.value)
  }

  /** No key occurs twice. */
  predicate Distinct(s: seq<string>) {
    forall i, j :: 0 <= i < j < |s| ==> s[i] != s[j]
  }

  /** `replace(trail, input, snips)`. The trail is handed in and handed back, as the
      `&mut Vec<String>` of the source. On success the trail comes back as it went
      in; on an error (which the source propagates with `?`, skipping the pops) it
      has grown by the keys that were being expanded, each registered and none
      twice. */
  method Replace(trail: seq<string>, input: Yaml, snips: Registry)
    returns (res: Result<Yaml>, trail': seq<string>)
    ensures res == Resolve(trail, input, snips)
    ensures res.Ok? ==> trail' == trail
    ensures res.Err? ==> Grown(trail, trail', snips)
    decreases Unvisited(snips, trail), input
  {
    match input
    case String(v) =>
      trail' := trail;
      if !IsPlaceholder(v) {
        return Ok(input), trail';
      }
      var key := KeyOf(v);
      if key !in snips {
        return Err(NoSnippet(v)), trail';
      }
      if key in trail' {
        return Err(CircularReplacement(trail', key)), trail';
      }
      trail' := trail' + [key];
      assert Unvisited(snips, trail') < Unvisited(snips, trail) by {
        assert key in Unvisited(snips, trail) - Unvisited(snips, trail');
      }
      ghost var pushed := trail';
      res, trail' := Replace(trail', snips[key], snips);
      if res.Err? {
        assert trail'[|trail|..] == [key] + trail'[|pushed|..];
        return;
      }
      trail' := trail'[..|trail'| - 1];
    case Array(a) =>
      var items;
      items, trail' := ReplaceItems(trail, a, snips);
      res := if items.Ok? then Ok(Array(items.value)) else Err(items.error);
    case Hash(h) =>
      var entries;
      entries, trail' := ReplaceValues(trail, h, snips);
      res := if entries.Ok? then Ok(Hash(entries.value)) else Err(entries.error);
    case _ =>
      res, trail' := Ok(input), trail;
  }

  /** What an error leaves on the trail: the old trail followed by registered keys,
      and no key twice if there was none twice before. */
  predicate Grown(trail: seq<string>, trail': seq<string>, snips: Registry) {
    && trail <= trail'
    && (Distinct(trail) ==> Distinct(trail'))
    && forall k :: k in trail'[|trail|..] ==> k in snips
  }

  /** The `Yaml::Array` arm: each element is replaced in order, remembering whether
      it was a string, and a string that became an array is spliced in. */
  method ReplaceItems(trail: seq<string>, a: seq<Yaml>, snips: Registry)
    returns (res: Result<seq<Yaml>>, trail': seq<string>)
    ensures res == ResolveItems(trail, a, snips)
    ensures res.Ok? ==> trail' == trail
    ensures res.Err? ==> Grown(trail, trail', snips)
    decreases Unvisited(snips, trail), a
  {
    var out: seq<Yaml> := [];
    trail' := trail;
    var i := 0;
    while i < |a|
      invariant 0 <= i <= |a|
      invariant trail' == trail
      invariant ResolveItems(trail, a[..i], snips) == Ok(out)
    {
      var wasStr := a[i].String?;
      var r;
      r, trail' := Replace(trail', a[i], snips);
      assert a[..i + 1][..i] == a[..i];
      if r.Err? {
        ItemsStopAtError(trail, a, i + 1, snips);
        return Err(r.error), trail';
      }
      out := out + if wasStr && r.value.Array? then r.value.items else [r.value];
      i := i + 1;
    }
    assert a[..i] == a;
    res := Ok(out);
  }

  /** The `Yaml::Hash` arm: each value is replaced in order; the keys are kept. */
  method ReplaceValues(trail: seq<string>, h: seq<(Yaml, Yaml)>, snips: Registry)
    returns (res: Result<seq<(Yaml, Yaml)>>, trail': seq<string>)
    ensures res == ResolveValues(trail, h, snips)
    ensures res.Ok? ==> trail' == trail
    ensures res.Err? ==> Grown(trail, trail', snips)
    decreases Unvisited(snips, trail), h
  {
    var out: seq<(Yaml, Yaml)> := [];
    trail' := trail;
    var i := 0;
    while i < |h|
      invariant 0 <= i <= |h|
      invariant trail' == trail
      invariant ResolveValues(trail, h[..i], snips) == Ok(out)
    {
      var (k, v) := h[i];
      assert h[i] decreases to v;
      var r;
      r, trail' := Replace(trail', v, snips);
      assert h[..i + 1][..i] == h[..i];
      if r.Err? {
        ValuesStopAtError(trail, h, i + 1, snips);
        return Err(r.error), trail';
      }
      out := out + [(k, r.value)];
      i := i + 1;
    }
    assert h[..i] == h;
    res := Ok(out);
  }

  /** An error on the first `n` elements is the error of the whole array: the
      elements after it are never rewritten. */
  lemma {:induction false} ItemsStopAtError(trail: seq<string>, a: seq<Yaml>, n: nat, snips: Registry)
    requires n <= |a| && ResolveItems(trail, a[..n], snips).Err?
    ensures ResolveItems(trail, a, snips) == ResolveItems(trail, a[..n], snips)
    decreases |a| - n
  {
    if n < |a| {
      var front := a[..|a| - 1];
      assert front[..n] == a[..n];
      ItemsStopAtError(trail, front, n, snips);
    } else {
      assert a[..n] == a;
    }
  }

  /** The same for the values of a hash. */
  lemma {:induction false} ValuesStopAtError(trail: seq<string>, h: seq<(Yaml, Yaml)>, n: nat, snips: Registry)
    requires n <= |h| && ResolveValues(trail, h[..n], snips).Err?
    ensures ResolveValues(trail, h, snips) == ResolveValues(trail, h[..n], snips)
    decreases |h| - n
  {
    if n < |h| {
      var front := h[..|h| - 1];
      assert front[..n] == h[..n];
      ValuesStopAtError(trail, front, n, snips);
    } else {
      assert h[..n] == h;
    }
  }

  /** `Append` is associative. */
  lemma AppendAssoc<T>(x: Result<seq<T>>, y: Result<seq<T>>, z: Result<seq<T>>)
    ensures Append(Append(x, y), z) == Append(x, Append(y, z))
  {
    if x.Ok? && y.Ok? && z.Ok? {
      assert x.value + y.value + z.value == x.value + (y.value + z.value);
    }
  }

  /** One step of `ResolveItems`: the last element joins the rest. */
  lemma ItemsSnoc(trail: seq<string>, a: seq<Yaml>, snips: Registry)
    requires a != []
    ensures ResolveItems(trail, a, snips) ==
              Append(ResolveItems(trail, a[..|a| - 1], snips), ResolveItems(trail, [a[|a| - 1]], snips))
  {
    var x := a[|a| - 1];
    assert [x][..0] == [];
    var r := Resolve(trail, x, snips);
    if r.Ok? {
      assert ResolveItems(trail, [x], snips) == Ok([] + Splice(x, r.value));
      assert [] + Splice(x, r.value) == Splice(x, r.value);
    }
  }

  /** One step of `ResolveValues`: the last entry joins the rest. */
  lemma ValuesSnoc(trail: seq<string>, h: seq<(Yaml, Yaml)>, snips: Registry)
    requires h != []
    ensures ResolveValues(trail, h, snips) ==
              Append(ResolveValues(trail, h[..|h| - 1], snips), ResolveValues(trail, [h[|h| - 1]], snips))
  {
    var e := h[|h| - 1];
    assert [e][..0] == [];
    var r := Resolve(trail, e.1, snips);
    if r.Ok? {
      assert ResolveValues(trail, [e], snips) == Ok([] + [(e.0, r.value)]);
      assert [] + [(e.0, r.value)] == [(e.0, r.value)];
    }
  }

  /** Array rewriting is a homomorphism over concatenation: the elements are done
      in order, the first error wins, and the rewritten parts are concatenated. */
  lemma {:induction false} ItemsAppend(trail: seq<string>, a: seq<Yaml>, b: seq<Yaml>, snips: Registry)
    ensures ResolveItems(trail, a + b, snips) == Append(ResolveItems(trail, a, snips), ResolveItems(trail, b, snips))
    decreases |b|
  {
    if b == [] {
      assert a + b == a;
      var x := ResolveItems(trail, a, snips);
      if x.Ok? {
        assert x.value + [] == x.value;
      }
    } else {
      var b', last := b[..|b| - 1], b[|b| - 1];
      var ab := a + b;
      assert ab[..|ab| - 1] == a + b' && ab[|ab| - 1] == last;
      ItemsSnoc(trail, ab, snips);
      ItemsAppend(trail, a, b', snips);
      ItemsSnoc(trail, b, snips);
      AppendAssoc(ResolveItems(trail, a, snips), ResolveItems(trail, b', snips), ResolveItems(trail, [last], snips));
    }
  }

  /** Hash rewriting is a homomorphism over concatenation of entry lists. */
  lemma {:induction false} ValuesAppend(trail: seq<string>, h: seq<(Yaml, Yaml)>, g: seq<(Yaml, Yaml)>, snips: Registry)
    ensures ResolveValues(trail, h + g, snips) == Append(ResolveValues(trail, h, snips), ResolveValues(trail, g, snips))
    decreases |g|
  {
    if g == [] {
      assert h + g == h;
      var x := ResolveValues(trail, h, snips);
      if x.Ok? {
        assert x.value + [] == x.value;
      }
    } else {
      var g', last := g[..|g| - 1], g[|g| - 1];
      var hg := h + g;
      assert hg[..|hg| - 1] == h + g' && hg[|hg| - 1] == last;
      ValuesSnoc(trail, hg, snips);
      ValuesAppend(trail, h, g', snips);
      ValuesSnoc(trail, g, snips);
      AppendAssoc(ResolveValues(trail, h, snips), ResolveValues(trail, g', snips), ResolveValues(trail, [last], snips));
    }
  }

  // ---------------------------------------------------------------------------
  // What a call does, case by case
  // ---------------------------------------------------------------------------

  /** Null, booleans, integers, reals and strings that are not placeholders come
      back unchanged, whatever the trail and the registry. This and
      `PlaceholderCases` spell out the arms of `Resolve` one by one; the engine
      that runs them on a threaded trail is `Replace`. */
  lemma ScalarsUnchanged(trail: seq<string>, input: Yaml, snips: Registry)
    requires !input.Array? && !input.Hash?
    requires input.String? ==> !IsPlaceholder(input.s)
    ensures Resolve(trail, input, snips) == Ok(input)
  {
  }

  /** A placeholder `SNIPPET_<key>`: an unregistered key is "No snippet" (this is
      looked up first), a key already on the trail is a circular replacement that
      reports the trail, and otherwise the result is the registered raw value
      rewritten with the key pushed on the trail. `Replace` does this by pushing
      the key before the nested call and popping it after a success. */
  lemma PlaceholderCases(trail: seq<string>, v: string, snips: Registry)
    requires IsPlaceholder(v)
    ensures KeyOf(v) !in snips ==> Resolve(trail, String(v), snips) == Err(NoSnippet(v))
    ensures KeyOf(v) in snips && KeyOf(v) in trail ==>
              Resolve(trail, String(v), snips) == Err(CircularReplacement(trail, KeyOf(v)))
    ensures KeyOf(v) in snips && KeyOf(v) !in trail ==>
              Resolve(trail, String(v), snips) == Resolve(trail + [KeyOf(v)], snips[KeyOf(v)], snips)
  {
  }

  // ---------------------------------------------------------------------------
  // Arrays: order, splicing and the first error
  // ---------------------------------------------------------------------------

  /** The elements' results laid out in order, each spliced by the rule of
      `Splice`. */
  function Spliced(a: seq<Yaml>, rs: seq<Yaml>): seq<Yaml>
    requires |a| == |rs|
  {
    if a == [] then [] else Splice(a[0], rs[0]) + Spliced(a[1..], rs[1..])
  }

  /** When every element rewrites successfully, the array is the results in
      element order: a string that became an array contributes all of that array's
      elements, every other result (an array that was already an array, a
      placeholder that became a hash or a scalar) exactly one element. */
  lemma {:induction false} ItemsAllOk(trail: seq<string>, a: seq<Yaml>, rs: seq<Yaml>, snips: Registry)
    requires |rs| == |a|
    requires forall i :: 0 <= i < |a| ==> Resolve(trail, a[i], snips) == Ok(rs[i])
    ensures ResolveItems(trail, a, snips) == Ok(Spliced(a, rs))
    decreases |a|
  {
    if a != [] {
      ItemsAllOk(trail, a[1..], rs[1..], snips);
      ItemsAppend(trail, [a[0]], a[1..], snips);
      assert [a[0]] + a[1..] == a;
      assert [a[0]][..0] == [];
      assert ResolveItems(trail, [a[0]], snips) == Ok([] + Splice(a[0], rs[0]));
      assert [] + Splice(a[0], rs[0]) == Splice(a[0], rs[0]);
    }
  }

  /** Otherwise the array fails with the error of its first failing element. */
  lemma {:induction false} ItemsFirstError(trail: seq<string>, a: seq<Yaml>, i: nat, snips: Registry)
    requires i < |a| && Resolve(trail, a[i], snips).Err?
    requires forall j :: 0 <= j < i ==> Resolve(trail, a[j], snips).Ok?
    ensures ResolveItems(trail, a, snips) == Err(Resolve(trail, a[i], snips).error)
  {
    var rs := seq(i, j requires 0 <= j < i => Resolve(trail, a[j], snips).value);
    assert forall j :: 0 <= j < i ==> a[..i][j] == a[j];
    ItemsAllOk(trail, a[..i], rs, snips);
    assert a[..i + 1][..i] == a[..i] && a[..i + 1][i] == a[i];
    ItemsStopAtError(trail, a, i + 1, snips);
  }

  /** Splicing the elements with themselves gives the array back: only a string can
      be spliced, and a string is not an array. */
  lemma {:induction false} SplicedSelf(a: seq<Yaml>)
    ensures Spliced(a, a) == a
  {
    if a != [] {
      SplicedSelf(a[1..]);
    }
  }

  // ---------------------------------------------------------------------------
  // Hashes: keys and their order are kept, values are rewritten
  // ---------------------------------------------------------------------------

  /** A hash rewrites successfully exactly when each of its values does; then every
      entry keeps its key, in its place, and holds its rewritten value. */
  lemma {:induction false} ValuesPointwise(trail: seq<string>, h: seq<(Yaml, Yaml)>, snips: Registry)
    ensures ResolveValues(trail, h, snips).Ok? <==>
              forall i :: 0 <= i < |h| ==> Resolve(trail, h[i].1, snips).Ok?
    ensures ResolveValues(trail, h, snips).Ok? ==>
              var out := ResolveValues(trail, h, snips).value;
              && Keys(out) == Keys(h)
              && forall i :: 0 <= i < |h| ==> Ok(out[i].1) == Resolve(trail, h[i].1, snips)
    decreases |h|
  {
    if h != [] {
      var front := h[..|h| - 1];
      ValuesPointwise(trail, front, snips);
      assert forall i :: 0 <= i < |front| ==> front[i] == h[i];
      var r := ResolveValues(trail, h, snips);
      if r.Ok? {
        var out, out' := r.value, ResolveValues(trail, front, snips).value;
        assert out[..|out| - 1] == out' && out[|out| - 1].0 == h[|h| - 1].0;
        assert forall i :: 0 <= i < |front| ==> Keys(out)[i] == Keys(out')[i] == Keys(front)[i] == Keys(h)[i];
      }
    }
  }

  /** A failing hash fails with the error of its first failing value. */
  lemma {:induction false} ValuesFirstError(trail: seq<string>, h: seq<(Yaml, Yaml)>, i: nat, snips: Registry)
    requires i < |h| && Resolve(trail, h[i].1, snips).Err?
    requires forall j :: 0 <= j < i ==> Resolve(trail, h[j].1, snips).Ok?
    ensures ResolveValues(trail, h, snips) == Err(Resolve(trail, h[i].1, snips).error)
  {
    assert forall j :: 0 <= j < i ==> h[..i][j] == h[j];
    ValuesPointwise(trail, h[..i], snips);
    assert h[..i + 1][..i] == h[..i] && h[..i + 1][i] == h[i];
    ValuesStopAtError(trail, h, i + 1, snips);
  }

  // ---------------------------------------------------------------------------
  // A tree without placeholders
  // ---------------------------------------------------------------------------

  /** No string that `Resolve` would look at starts with `SNIPPET_`: not a scalar
      string, not an array element, not a hash value at any depth. Hash keys are
      never looked at, so they may be anything. */
  predicate Plain(y: Yaml) {
    match y
    case String(v) => !IsPlaceholder(v)
    case Array(a) => forall i :: 0 <= i < |a| ==> Plain(a[i])
    case Hash(h) => PlainValues(h)
    case _ => true
  }

  predicate PlainValues(h: seq<(Yaml, Yaml)>) {
    if h == [] then true
    else
      var (_, v) := h[|h| - 1];
      assert h[|h| - 1] decreases to v;
      PlainValues(h[..|h| - 1]) && Plain(v)
  }

  /** Without placeholders the rewrite succeeds and is the identity, on any trail
      and any registry. */
  lemma {:induction false} PlainUnchanged(trail: seq<string>, y: Yaml, snips: Registry)
    requires Plain(y)
    ensures Resolve(trail, y, snips) == Ok(y)
    decreases y, 1
  {
    match y
    case Array(a) =>
      forall i | 0 <= i < |a| ensures Resolve(trail, a[i], snips) == Ok(a[i]) {
        PlainUnchanged(trail, a[i], snips);
      }
      ItemsAllOk(trail, a, a, snips);
      SplicedSelf(a);
    case Hash(h) =>
      PlainValuesUnchanged(trail, h, snips);
    case _ =>
  }

  lemma {:induction false} PlainValuesUnchanged(trail: seq<string>, h: seq<(Yaml, Yaml)>, snips: Registry)
    requires PlainValues(h)
    ensures ResolveValues(trail, h, snips) == Ok(h)
    decreases h, 0
  {
    if h != [] {
      var front, last := h[..|h| - 1], h[|h| - 1];
      assert last decreases to last.1;
      PlainValuesUnchanged(trail, front, snips);
      PlainUnchanged(trail, last.1, snips);
      assert front + [(last.0, last.1)] == h;
    }
  }

  // ---------------------------------------------------------------------------
  // Errors
  // ---------------------------------------------------------------------------

  /** What an error of a rewrite started on `trail` says about the input: "No
      snippet" names a placeholder whose key is not registered; a circular
      replacement names a registered key that is on the reported trail, and that
      trail is `trail` followed by registered keys, with no key twice when `trail`
      had none twice. The registry errors never come out of a rewrite. */
  predicate Explains(trail: seq<string>, e: Error, snips: Registry) {
    match e
    case NoSnippet(v) => IsPlaceholder(v) && KeyOf(v) !in snips
    case CircularReplacement(t, k) => k in snips && k in t && Grown(trail, t, snips)
    case _ => false
  }

  lemma {:induction false} ErrorsExplained(trail: seq<string>, y: Yaml, snips: Registry)
    requires Resolve(trail, y, snips).Err?
    ensures Explains(trail, Resolve(trail, y, snips).error, snips)
    decreases Unvisited(snips, trail), y, 1
  {
    match y
    case String(v) =>
      var key := KeyOf(v);
      if key in snips && key !in trail {
        assert Unvisited(snips, trail + [key]) < Unvisited(snips, trail) by {
          assert key in Unvisited(snips, trail) - Unvisited(snips, trail + [key]);
        }
        ErrorsExplained(trail + [key], snips[key], snips);
        var e := Resolve(trail + [key], snips[key], snips).error;
        if e.CircularReplacement? {
          assert e.trail[|trail|..] == [key] + e.trail[|trail + [key]|..];
        }
      }
    case Array(a) =>
      ItemsErrorsExplained(trail, a, snips);
    case Hash(h) =>
      ValuesErrorsExplained(trail, h, snips);
  }

  lemma {:induction false} ItemsErrorsExplained(trail: seq<string>, a: seq<Yaml>, snips: Registry)
    requires ResolveItems(trail, a, snips).Err?
    ensures Explains(trail, ResolveItems(trail, a, snips).error, snips)
    decreases Unvisited(snips, trail), a, 0
  {
    if ResolveItems(trail, a[..|a| - 1], snips).Err? {
      ItemsErrorsExplained(trail, a[..|a| - 1], snips);
    } else {
      ErrorsExplained(trail, a[|a| - 1], snips);
    }
  }

  lemma {:induction false} ValuesErrorsExplained(trail: seq<string>, h: seq<(Yaml, Yaml)>, snips: Registry)
    requires ResolveValues(trail, h, snips).Err?
    ensures Explains(trail, ResolveValues(trail, h, snips).error, snips)
    decreases Unvisited(snips, trail), h, 0
  {
    if ResolveValues(trail, h[..|h| - 1], snips).Err? {
      ValuesErrorsExplained(trail, h[..|h| - 1], snips);
    } else {
      assert h[|h| - 1] decreases to h[|h| - 1].1;
      ErrorsExplained(trail, h[|h| - 1].1, snips);
    }
  }

  /** A hash rewritten successfully still holds each key once, so rebuilding it
      entry by entry (the source collects into a `LinkedHashMap`) loses nothing. */
  lemma ValuesKeepUniqueKeys(trail: seq<string>, h: seq<(Yaml, Yaml)>, snips: Registry)
    requires UniqueKeys(h) && ResolveValues(trail, h, snips).Ok?
    ensures UniqueKeys(ResolveValues(trail, h, snips).value)
  {
    ValuesPointwise(trail, h, snips);
    var out := ResolveValues(trail, h, snips).value;
    assert forall i :: 0 <= i < |h| ==> out[i].0 == Keys(out)[i] == Keys(h)[i] == h[i].0;
  }

  // ---------------------------------------------------------------------------
  // Examples
  // ---------------------------------------------------------------------------

  /** `[SNIPPET_list, 9]` with `list` registered as `[1, 2, 3]` becomes
      `[1, 2, 3, 9]`: the replaced string is spliced into its parent. */
  lemma ExampleSplicing()
    ensures var one, two, three, nine := Integer(1), Integer(2), Integer(3), Integer(9);
            Resolve([], Array([String("SNIPPET_list"), nine]), map["list" := Array([one, two, three])])
              == Ok(Array([one, two, three, nine]))
  {
    var p := "SNIPPET_list";
    assert IsPlaceholder(p) && KeyOf(p) == "list";
    var list := Array([Integer(1), Integer(2), Integer(3)]);
    var a := [String(p), Integer(9)];
    var snips := map["list" := list];
    assert Plain(list);
    assert [] + ["list"] == ["list"];
    PlaceholderCases([], p, snips);
    PlainUnchanged(["list"], list, snips);
    assert Resolve([], a[0], snips) == Ok(list);
    ItemsAllOk([], a, [list, Integer(9)], snips);
    assert a[1..] == [Integer(9)] && [list, Integer(9)][1..] == [Integer(9)];
    assert Spliced([Integer(9)], [Integer(9)]) == [Integer(9)] + Spliced([], []);
    assert Splice(a[0], list) == list.items;
    assert Spliced(a, [list, Integer(9)]) == [Integer(1), Integer(2), Integer(3), Integer(9)];
  }

  /** With `list` registered as a hash instead, the hash stays one element. */
  lemma ExampleHashElement()
    ensures Resolve([], Array([String("SNIPPET_list"), Integer(9)]), map["list" := Hash([(Null, Null)])])
              == Ok(Array([Hash([(Null, Null)]), Integer(9)]))
  {
    var p := "SNIPPET_list";
    assert IsPlaceholder(p) && KeyOf(p) == "list";
    var hash := Hash([(Null, Null)]);
    var a := [String(p), Integer(9)];
    var snips := map["list" := hash];
    assert [] + ["list"] == ["list"];
    assert Plain(hash) by { assert PlainValues([(Null, Null)][..0]); }
    PlaceholderCases([], p, snips);
    PlainUnchanged(["list"], hash, snips);
    assert Resolve([], a[0], snips) == Ok(hash);
    ItemsAllOk([], a, [hash, Integer(9)], snips);
    assert a[1..] == [Integer(9)] && [hash, Integer(9)][1..] == [Integer(9)];
    assert Spliced([Integer(9)], [Integer(9)]) == [Integer(9)] + Spliced([], []);
    assert Splice(a[0], hash) == [hash];
    assert Spliced(a, [hash, Integer(9)]) == [hash, Integer(9)];
  }

  /** `SNIPPET_a` with `a` registered as `SNIPPET_b` and `b` as `SNIPPET_a` is a
      circular replacement that reports both keys; `SNIPPET_x` with nothing
      registered is "No snippet". */
  lemma ExampleErrors()
    ensures Resolve([], String("SNIPPET_a"), map["a" := String("SNIPPET_b"), "b" := String("SNIPPET_a")])
              == Err(CircularReplacement(["a", "b"], "a"))
    ensures Resolve([], String("SNIPPET_x"), map[]) == Err(NoSnippet("SNIPPET_x"))
  {
    var a, b, x := "SNIPPET_a", "SNIPPET_b", "SNIPPET_x";
    var snips := map["a" := String(b), "b" := String(a)];
    assert IsPlaceholder(a) && KeyOf(a) == "a";
    assert IsPlaceholder(b) && KeyOf(b) == "b";
    assert IsPlaceholder(x) && KeyOf(x) == "x";
    PlaceholderCases([], a, snips);
    PlaceholderCases(["a"], b, snips);
    assert [] + ["a"] == ["a"] && ["a"] + ["b"] == ["a", "b"];
    PlaceholderCases(["a", "b"], a, snips);
    PlaceholderCases([], x, map[]);
  }

  /** `{SNIPPET_k: SNIPPET_env}` with `env` registered as `{name: prod}`: the key is
      left alone even though it looks like a placeholder; the value is replaced. */
  lemma ExampleHash()
    ensures var env := Hash([(String("name"), String("prod"))]);
            Resolve([], Hash([(String("SNIPPET_k"), String("SNIPPET_env"))]), map["env" := env, "k" := Null])
              == Ok(Hash([(String("SNIPPET_k"), env)]))
  {
    var e := "SNIPPET_env";
    assert IsPlaceholder(e) && KeyOf(e) == "env";
    var env := Hash([(String("name"), String("prod"))]);
    var snips := map["env" := env, "k" := Null];
    assert !IsPlaceholder("prod");
    assert Plain(env) by { assert PlainValues([(String("name"), String("prod"))][..0]); }
    assert [] + ["env"] == ["env"];
    PlaceholderCases([], e, snips);
    PlainUnchanged(["env"], env, snips);
    var h := [(String("SNIPPET_k"), String(e))];
    assert Resolve([], h[0].1, snips) == Ok(env);
    ValuesPointwise([], h, snips);
    var out := ResolveValues([], h, snips).value;
    assert |Keys(out)| == 1;
    assert out == [(String("SNIPPET_k"), env)];
  }
}
