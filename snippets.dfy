/** The snippet registry: the pipeline at the top of `run` in yambler/src/main.rs
    that turns every document of every snippet file into a (key, value) entry and
    collects the entries into a `HashMap<String, Yaml>`. */
module Snippets {
  import opened YamlValue

  /** The registry: snippet key to its raw (unsubstituted) value. */
  type Registry = map<string, Yaml>

  /** One snippet document: a hash whose `key` entry, removed first, is a string,
      and whose `value` entry is then removed from what is left. */
  function SnippetEntry(doc: Yaml): (r: Result<(string, Yaml)>)
    ensures !doc.Hash? ==> r == Err(SnipNotHash)
    ensures doc.Hash? ==>
              var key, value := Lookup(doc.entries, String("key")), Lookup(doc.entries, String("value"));
              && (key.None? || !key.value.String? ==> r == Err(SnipNoStringKey))
              && (key.Some? && key.value.String? && value.None? ==> r == Err(SnipNoValue))
              && (key.Some? && key.value.String? && value.Some? ==> r == Ok((key.value.s, value.value)))
  {
    match doc
    case Hash(h) =>
      var (key, rest) := Remove(h, String("key"));
      if key.None? || !key.value.String? then Err(SnipNoStringKey)
      else
        var (value, _) := Remove(rest, String("value"));
        if value.None? then Err(SnipNoValue)
        else Ok((key.value.s, value.value))
    case _ => Err(SnipNotHash)
  }

  /** The documents of all snippet files, file by file (`flat_map`). */
  function Documents(files: seq<seq<Yaml>>): seq<Yaml> {
    if files == [] then [] else Documents(files[..|files| - 1]) + files[|files| - 1]
  }

  /** Every document as an entry, in order; the first malformed one is the error. */
  function Entries(docs: seq<Yaml>): Result<seq<(string, Yaml)>> {
    Collected(seq(|docs|, i requires 0 <= i < |docs| => SnippetEntry(docs[i])))
  }

  /** Inserting the entries one after the other into an empty map. */
  function Collect(entries: seq<(string, Yaml)>): Registry {
    if entries == [] then map[]
    else
      var (k, v) := entries[|entries| - 1];
      Collect(entries[..|entries| - 1])[k := v]
  }

  /** The registry of a list of snippet files. */
  function BuildRegistry(files: seq<seq<Yaml>>): Result<Registry> {
    match Entries(Documents(files))
    case Err(e) => Err(e)
    case Ok(entries) => Ok(Collect(entries))
  }

  /** The documents of the files, in file order and in document order within a
      file. */
  lemma {:induction false} DocumentsAppend(files: seq<seq<Yaml>>, more: seq<seq<Yaml>>)
    ensures Documents(files + more) == Documents(files) + Documents(more)
    decreases |more|
  {
    if more == [] {
      assert files + more == files;
    } else {
      var more', last := more[..|more| - 1], more[|more| - 1];
      var all := files + more;
      assert all[..|all| - 1] == files + more' && all[|all| - 1] == last;
      DocumentsAppend(files, more');
      assert Documents(all) == Documents(files) + Documents(more') + last;
      assert Documents(files) + Documents(more') + last == Documents(files) + (Documents(more') + last);
    }
  }

  /** The registry holds exactly the keys of the entries. */
  lemma {:induction false} CollectKeys(entries: seq<(string, Yaml)>)
    ensures Collect(entries).Keys == set i | 0 <= i < |entries| :: entries[i].0
    decreases |entries|
  {
    if entries != [] {
      var front := entries[..|entries| - 1];
      CollectKeys(front);
      assert forall i :: 0 <= i < |front| ==> front[i] == entries[i];
    }
  }

  /** Last write wins: a key maps to the value of its last entry. */
  lemma {:induction false} CollectLastWins(entries: seq<(string, Yaml)>, i: nat)
    requires i < |entries|
    requires forall j :: i < j < |entries| ==> entries[j].0 != entries[i].0
    ensures entries[i].0 in Collect(entries) && Collect(entries)[entries[i].0] == entries[i].1
    decreases |entries|
  {
    if i < |entries| - 1 {
      var front := entries[..|entries| - 1];
      assert front[i] == entries[i];
      CollectLastWins(front, i);
    }
  }

  /** The registry of a list of files holds exactly the keys of their snippet
      documents. */
  lemma {:induction false} RegistryKeys(files: seq<seq<Yaml>>)
    requires BuildRegistry(files).Ok?
    ensures BuildRegistry(files).value.Keys ==
              set d | d in Documents(files) && SnippetEntry(d).Ok? :: SnippetEntry(d).value.0
  {
    var docs := Documents(files);
    CollectedPointwise(seq(|docs|, i requires 0 <= i < |docs| => SnippetEntry(docs[i])));
    var es := Entries(docs).value;
    CollectKeys(es);
    forall k | k in BuildRegistry(files).value.Keys
      ensures exists d :: d in docs && SnippetEntry(d).Ok? && SnippetEntry(d).value.0 == k
    {
      var i :| 0 <= i < |es| && es[i].0 == k;
      assert docs[i] in docs && SnippetEntry(docs[i]) == Ok(es[i]);
    }
    forall d | d in docs && SnippetEntry(d).Ok?
      ensures SnippetEntry(d).value.0 in BuildRegistry(files).value.Keys
    {
      var i :| 0 <= i < |docs| && docs[i] == d;
      assert SnippetEntry(docs[i]) == Ok(es[i]);
    }
  }

  /** A snippet that no later document redefines is registered with its value: a
      later duplicate key overwrites an earlier one. */
  lemma {:induction false} RegistryLastWins(files: seq<seq<Yaml>>, i: nat)
    requires BuildRegistry(files).Ok?
    requires i < |Documents(files)| && SnippetEntry(Documents(files)[i]).Ok?
    requires forall j :: i < j < |Documents(files)| && SnippetEntry(Documents(files)[j]).Ok? ==>
               SnippetEntry(Documents(files)[j]).value.0 != SnippetEntry(Documents(files)[i]).value.0
    ensures var (k, v) := SnippetEntry(Documents(files)[i]).value;
            k in BuildRegistry(files).value && BuildRegistry(files).value[k] == v
  {
    var docs := Documents(files);
    CollectedPointwise(seq(|docs|, i requires 0 <= i < |docs| => SnippetEntry(docs[i])));
    var es := Entries(docs).value;
    forall j | i < j < |es| ensures es[j].0 != es[i].0 {
      assert SnippetEntry(docs[j]) == Ok(es[j]);
    }
    assert SnippetEntry(docs[i]) == Ok(es[i]);
    CollectLastWins(es, i);
  }
}
