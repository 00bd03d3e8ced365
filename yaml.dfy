/** The generic YAML value tree that the template, the snippets and the output are
    made of, together with the errors the program reports and the few operations
    on an ordered hash (yaml_rust keeps a `Yaml::Hash` in a `LinkedHashMap`) that
    the substitution needs. */
module YamlValue {

  /** `Yaml::Integer` carries an `i64`. */
  newtype i64 = x: int | -0x8000_0000_0000_0000 <= x < 0x8000_0000_0000_0000

  /** One node of a parsed document. A `Real` keeps the literal text of the number
      (the program never computes with it); a `Hash` is the ordered list of its
      (key, value) entries. */
  datatype Yaml =
    | Null
    | Boolean(b: bool)
    | Integer(i: i64)
    | Real(repr: string)
    | String(s: string)
    | Array(items: seq<Yaml>)
    | Hash(entries: seq<(Yaml, Yaml)>)

  datatype Option<T> = None | Some(value: T)

  /** The failures of the substitution and of the snippet registry, each with the
      data its message names. */
  datatype Error =
    | NoSnippet(placeholder: string)                        // "No snippet for {placeholder}"
    | CircularReplacement(trail: seq<string>, key: string)  // "Circular replacement: {trail:?} -> {key}"
    | SnipNotHash                                           // "Yaml snip is not a hash."
    | SnipNoStringKey                                       // "Yaml snip doesn't have a string key."
    | SnipNoValue                                           // "Yaml snip doesn't have a value."

  datatype Result<T> = Ok(value: T) | Err(error: Error)

  /** The keys of a hash, in entry order. */
  function Keys(h: seq<(Yaml, Yaml)>): seq<Yaml> {
    seq(|h|, i requires 0 <= i < |h| => h[i].0)
  }

  /** A `LinkedHashMap` holds each key at most once. */
  predicate UniqueKeys(h: seq<(Yaml, Yaml)>) {
    forall i, j :: 0 <= i < j < |h| ==> h[i].0 != h[j].0
  }

  /** `get`: the value of the entry whose key is `k` (the first one, should a list
      of entries hold the key twice). */
  function Lookup(h: seq<(Yaml, Yaml)>, k: Yaml): Option<Yaml> {
    if h == [] then None
    else if h[0].0 == k then Some(h[0].1)
    else Lookup(h[1..], k)
  }

  /** `Lookup` finds the first entry for the key, and nothing when there is none. */
  lemma {:induction false} LookupFirst(h: seq<(Yaml, Yaml)>, k: Yaml)
    ensures Lookup(h, k).None? <==> forall i :: 0 <= i < |h| ==> h[i].0 != k
    ensures Lookup(h, k).Some? ==>
              exists i :: 0 <= i < |h| && h[i] == (k, Lookup(h, k).value) &&
                          forall j :: 0 <= j < i ==> h[j].0 != k
  {
    if h != [] && h[0].0 != k {
      LookupFirst(h[1..], k);
      assert forall i :: 1 <= i < |h| ==> h[1..][i - 1] == h[i];
      if Lookup(h, k).Some? {
        var i :| 0 <= i < |h[1..]| && h[1..][i] == (k, Lookup(h, k).value) &&
                 forall j :: 0 <= j < i ==> h[1..][j].0 != k;
        assert h[i + 1] == (k, Lookup(h, k).value);
      }
    }
  }

  /** `remove`: takes the entry for `k` out of the hash and hands back its value. */
  function Remove(h: seq<(Yaml, Yaml)>, k: Yaml): (r: (Option<Yaml>, seq<(Yaml, Yaml)>))
    ensures r.0 == Lookup(h, k)
    ensures forall e :: e in r.1 ==> e in h
    ensures forall k' :: k' != k ==> Lookup(r.1, k') == Lookup(h, k')
    ensures UniqueKeys(h) ==> UniqueKeys(r.1) && Lookup(r.1, k).None?
  {
    if h == [] then (None, [])
    else if h[0].0 == k then
      assert forall i :: 1 <= i < |h| ==> h[1..][i - 1] == h[i];
      LookupFirst(h[1..], k);
      (Some(h[0].1), h[1..])
    else
      var (v, rest) := Remove(h[1..], k);
      assert UniqueKeys(h) ==> forall e :: e in h[1..] ==> e.0 != h[0].0 by {
        if UniqueKeys(h) {
          forall e | e in h[1..] ensures e.0 != h[0].0 {
            var j :| 0 <= j < |h[1..]| && h[1..][j] == e;
            assert h[j + 1] == e;
          }
        }
      }
      (v, [h[0]] + rest)
  }

  /** `collect::<Result<Vec<_>>>()`: the values of the results, in order, or the
      first error. */
  function Collected<T>(rs: seq<Result<T>>): Result<seq<T>> {
    if rs == [] then Ok([])
    else
      match Collected(rs[..|rs| - 1])
      case Err(e) => Err(e)
      case Ok(front) =>
        match rs[|rs| - 1]
        case Err(e) => Err(e)
        case Ok(v) => Ok(front + [v])
  }

  /** Collecting succeeds exactly when every result is a value, and then it holds
      those values in order. */
  lemma {:induction false} CollectedPointwise<T>(rs: seq<Result<T>>)
    ensures Collected(rs).Ok? <==> forall i :: 0 <= i < |rs| ==> rs[i].Ok?
    ensures Collected(rs).Ok? ==>
              && |Collected(rs).value| == |rs|
              && forall i :: 0 <= i < |rs| ==> Ok(Collected(rs).value[i]) == rs[i]
    decreases |rs|
  {
    if rs != [] {
      var front := rs[..|rs| - 1];
      CollectedPointwise(front);
      assert forall i :: 0 <= i < |front| ==> front[i] == rs[i];
    }
  }

  /** Otherwise the first error is the outcome. */
  lemma {:induction false} CollectedFirstError<T>(rs: seq<Result<T>>, i: nat)
    requires i < |rs| && rs[i].Err?
    requires forall j :: 0 <= j < i ==> rs[j].Ok?
    ensures Collected(rs) == Err(rs[i].error)
    decreases |rs|
  {
    if i < |rs| - 1 {
      var front := rs[..|rs| - 1];
      assert front[i] == rs[i];
      CollectedFirstError(front, i);
    } else {
      CollectedPointwise(rs[..i]);
      assert forall j :: 0 <= j < i ==> rs[..i][j] == rs[j];
    }
  }

  /** An error among the first `n` results is the outcome of the whole. */
  lemma {:induction false} CollectedStopsAtError<T>(rs: seq<Result<T>>, n: nat)
    requires n <= |rs| && Collected(rs[..n]).Err?
    ensures Collected(rs) == Collected(rs[..n])
    decreases |rs| - n
  {
    if n < |rs| {
      var front := rs[..|rs| - 1];
      assert front[..n] == rs[..n];
      CollectedStopsAtError(front, n);
    } else {
      assert rs[..n] == rs;
    }
  }
}
