# Yambler substitution engine in Dafny

Yambler stitches YAML snippets into a YAML template. Every snippet file holds
documents of the form `{key: <name>, value: <any YAML>}`. These documents are
collected into a registry from name to raw value. Then every document of the
template is rewritten:

- a string `SNIPPET_<name>` is replaced by the registered value of `<name>`, which
  is itself rewritten first;
- an array rewrites its elements in order, and an element that was a string and
  became an array is spliced into the parent (flattened one level);
- a hash rewrites its values and keeps its keys;
- everything else stays as it is.

A trail of the names being expanded detects circular references. The output file
is a "DO NOT EDIT" header followed by the emitted documents.

The model has four modules:

- `YamlValue` (`yaml.dfy`): the YAML value tree, the error kinds, and the
  `get`/`remove` operations of the ordered hash.
- `Snippets` (`snippets.dfy`): building the registry from the snippet documents.
- `Substitution` (`substitution.dfy`): the rewrite. `Resolve`, `ResolveItems` and
  `ResolveValues` are its specification, with the trail as a plain value. The
  methods `Replace`, `ReplaceItems` and `ReplaceValues` are the engine as written:
  they thread the trail through every call, push a key before expanding it and pop
  it afterwards. They are proved to compute the specification.
- `Yambler` (`run.dfy`): the body of `run`. It replaces all template documents with
  one shared trail, frames the output text, and composes the whole run.

Termination of the rewrite is proved with a lexicographic measure. The first part
is the set of registered keys not on the trail. A key is pushed only if it is
registered and not already on the trail, so this set shrinks with every expansion.
The second part is the value being rewritten.

Three details of the code that the model keeps:

- The code looks up the key in the registry before it checks the trail
  (yambler/src/main.rs:55-58). So an unregistered key that is also on the trail
  gives "No snippet", not "Circular replacement". From an empty trail this cannot
  be observed: every key on the trail is registered (`Grown`, `Explains`).
- The code does not pop the trail when a nested rewrite fails: `?` returns before
  the `pop`. The methods give back the grown trail in that case. Their contracts
  state what it holds: the old trail followed by registered keys, none twice.
  Success always restores the trail, so every template document starts from an
  empty trail (`ReplaceDocuments`).
- The code requires only that a snippet's `key` is a string. It does not check
  that the string is non-empty.

## Model

| member | source | states |
|---|---|---|
| `YamlValue.Lookup` | yambler/src/main.rs:25-28 | definition of `get` on a hash; its properties are the rows `YamlValue.LookupFirst` and `YamlValue.Remove` |
| `YamlValue.Collected` | yambler/src/main.rs:19-31 | definition of collecting results into `Result<Vec<_>>`; its properties are the rows `YamlValue.CollectedPointwise`, `YamlValue.CollectedFirstError` and `YamlValue.CollectedStopsAtError` |
| `Snippets.Documents` | yambler/src/main.rs:16-21 | definition of the `flat_map` over the snippet files; its property is the row `Snippets.DocumentsAppend` |
| `Snippets.Entries` | yambler/src/main.rs:22-31 | definition: each document as an entry, collected; its properties follow from `SnippetEntry` and the `Collected` rows |
| `Snippets.Collect` | yambler/src/main.rs:31 | definition of collecting the entries into a map; its properties are the rows `Snippets.CollectKeys` and `Snippets.CollectLastWins` |
| `Snippets.BuildRegistry` | yambler/src/main.rs:16-31 | definition of the registry pipeline; its properties are the rows `Snippets.RegistryKeys` and `Snippets.RegistryLastWins` |
| `Substitution.Splice` | yambler/src/main.rs:73-79 | definition of the splice rule: a string whose result is an array contributes its elements, anything else one element; its properties are the rows `Substitution.ItemsAllOk`, `Substitution.SplicedSelf` and the examples |
| `Substitution.Resolve` | yambler/src/main.rs:51-88 | definition of `replace` with the trail as a value; its properties are the `Substitution` rows below, and `Substitution.Replace` is proved to compute it |
| `Substitution.ResolveItems` | yambler/src/main.rs:64-82 | definition of the array arm; its properties are the rows `Substitution.ItemsAppend`, `Substitution.ItemsStopAtError`, `Substitution.ItemsAllOk` and `Substitution.ItemsFirstError` |
| `Substitution.ResolveValues` | yambler/src/main.rs:83-85 | definition of the hash arm; its properties are the rows `Substitution.ValuesAppend`, `Substitution.ValuesStopAtError`, `Substitution.ValuesPointwise`, `Substitution.ValuesFirstError` and `Substitution.ValuesKeepUniqueKeys` |
| `Yambler.ResolveAll` | yambler/src/main.rs:33-34 | definition: every document rewritten from an empty trail, the outcomes collected; `Yambler.ReplaceDocuments` is proved to compute it |
| `Yambler.TemplateName` | yambler/src/main.rs:36 | definition: the file name, or `??` when the path has none |
| `Yambler.Header` | yambler/src/main.rs:37 | definition of the "DO NOT EDIT" header text naming the template |
| `Yambler.Join` | yambler/src/main.rs:40-42 | definition of the dumps written one after another; its property is the row `Yambler.JoinFirst` |
| `Yambler.Framed` | yambler/src/main.rs:36-45 | definition of the output text; `Yambler.Frame` is proved to compute it |
| `Yambler.Output` | yambler/src/main.rs:13-49 | definition of the whole run over parsed documents; `Yambler.Run` is proved to compute it |
| `YamlValue.LookupFirst` | yambler/src/main.rs:25-28 | looking up a key in a hash gives nothing exactly when no entry has that key; otherwise it gives the value of the first entry with that key |
| `YamlValue.Remove` | yambler/src/main.rs:24-28 | removing a key returns what a lookup of that key returns; it keeps only entries of the hash and leaves the lookup of every other key unchanged; if keys are unique they stay unique and the removed key is gone |
| `Snippets.SnippetEntry` | yambler/src/main.rs:22-30 | a document that is not a hash is "not a hash"; a missing or non-string `key` is "no string key"; a missing `value` is "no value"; otherwise the entry is the (key string, value) pair found in the document |
| `Snippets.DocumentsAppend` | yambler/src/main.rs:16-21 | the snippet documents are those of the files in file order, and within each file in document order |
| `YamlValue.CollectedPointwise` | yambler/src/main.rs:22-31 | collecting results into `Result<Vec<_>>` succeeds exactly when every result is a value; then it holds those values, in order (the snippet entries at lines 22-31, the rewritten documents at line 34) |
| `YamlValue.CollectedFirstError` | yambler/src/main.rs:22-31 | otherwise the outcome is the first error: the first malformed snippet document, or the first template document that fails to rewrite |
| `Snippets.CollectKeys` | yambler/src/main.rs:31 | the collected map holds exactly the keys of the entries |
| `Snippets.CollectLastWins` | yambler/src/main.rs:31 | a key maps to the value of its last entry; a later duplicate overwrites an earlier one |
| `Snippets.RegistryKeys` | yambler/src/main.rs:16-31 | the registry built from the snippet files holds exactly the keys of their snippet documents |
| `Snippets.RegistryLastWins` | yambler/src/main.rs:16-31 | a snippet that no later document redefines is registered with its own value |
| `Substitution.KeyOf` | yambler/src/main.rs:53-54 | the key of a placeholder is what follows the `SNIPPET_` prefix |
| `Substitution.Replace` | yambler/src/main.rs:51-88 | the trail-threading rewrite computes `Resolve`; on success the trail comes back unchanged; on an error it is the old trail followed by registered keys, with no key twice if there was none twice before |
| `Substitution.ReplaceItems` | yambler/src/main.rs:64-82 | the array arm, with its `was_str` flag and per-element calls on the shared trail, computes `ResolveItems` with the same trail discipline |
| `Substitution.ReplaceValues` | yambler/src/main.rs:83-85 | the hash arm computes `ResolveValues` with the same trail discipline |
| `Substitution.ItemsAppend` | yambler/src/main.rs:64-81 | array rewriting distributes over concatenation: elements are done in order, the first error wins, and the results concatenate |
| `Substitution.ItemsStopAtError` | yambler/src/main.rs:66-71 | an error on the first elements of an array is the error of the whole array |
| `Substitution.ValuesAppend` | yambler/src/main.rs:83-84 | hash rewriting distributes over concatenation of entry lists in the same way |
| `Substitution.ValuesStopAtError` | yambler/src/main.rs:84 | an error on the first entries of a hash is the error of the whole hash |
| `Substitution.ScalarsUnchanged` | yambler/src/main.rs:53-86 | Null, Boolean, Integer, Real and strings without the prefix come back unchanged, on any trail and registry |
| `Substitution.PlaceholderCases` | yambler/src/main.rs:53-62 | for a placeholder: an unregistered key gives "No snippet" naming the placeholder; a registered key on the trail gives "Circular replacement" with the trail and the key; otherwise the result is the registered raw value rewritten with the key pushed on the trail |
| `Substitution.ItemsAllOk` | yambler/src/main.rs:64-81 | if every element rewrites, the array is the results in element order; a string that became an array contributes its elements; any other result (a nested array, a hash from a placeholder, a scalar) is one element |
| `Substitution.ItemsFirstError` | yambler/src/main.rs:66-71 | otherwise the array fails with the error of its first failing element |
| `Substitution.SplicedSelf` | yambler/src/main.rs:73-79 | splicing elements with themselves gives the array back, because only a string is spliced and a string is not an array |
| `Substitution.ValuesPointwise` | yambler/src/main.rs:83-84 | a hash rewrites exactly when each value does; then the keys are the same, in the same order, and each value is its rewritten value |
| `Substitution.ValuesFirstError` | yambler/src/main.rs:84 | a failing hash fails with the error of its first failing value |
| `Substitution.ValuesKeepUniqueKeys` | yambler/src/main.rs:84 | a rewritten hash with unique keys still has unique keys, so collecting it back into a map loses no entry |
| `Substitution.PlainUnchanged` | yambler/src/main.rs:51-88 | a tree with no `SNIPPET_` string in any scalar, array element or hash value rewrites successfully to itself, on any trail and registry; hash keys may be anything |
| `Substitution.PlainValuesUnchanged` | yambler/src/main.rs:83-84 | the same for the entries of a hash |
| `Substitution.ErrorsExplained` | yambler/src/main.rs:53-61 | every rewrite error is genuine: "No snippet" names a placeholder whose key is unregistered; "Circular replacement" names a registered key that is on the reported trail, and that trail extends the starting trail by registered keys, none twice; registry errors never come from a rewrite |
| `Substitution.ItemsErrorsExplained` | yambler/src/main.rs:64-71 | the same for array elements |
| `Substitution.ValuesErrorsExplained` | yambler/src/main.rs:83-84 | the same for hash values |
| `Substitution.ExampleSplicing` | yambler/src/main.rs:64-81 | `[SNIPPET_list, 9]` with `list = [1,2,3]` gives `[1,2,3,9]` |
| `Substitution.ExampleHashElement` | yambler/src/main.rs:73-79 | `[SNIPPET_list, 9]` with `list` a hash gives `[hash, 9]`: only an array is spliced |
| `Substitution.ExampleErrors` | yambler/src/main.rs:55-57 | `SNIPPET_a` with `a -> SNIPPET_b` and `b -> SNIPPET_a` gives "Circular replacement" with trail `[a, b]` and key `a`; `SNIPPET_x` with an empty registry gives "No snippet" for `SNIPPET_x` |
| `Substitution.ExampleHash` | yambler/src/main.rs:83-84 | a hash key that looks like a placeholder is kept as it is, while its value is replaced |
| `Yambler.ReplaceDocuments` | yambler/src/main.rs:33-34 | replacing every template document with one shared trail gives `ResolveAll`: the loop keeps the trail empty before every document, because a successful rewrite hands it back unchanged, so document i is rewritten from an empty trail; the first error stops the run |
| `YamlValue.CollectedStopsAtError` | yambler/src/main.rs:34 | an error among the first results is the outcome of the whole: nothing after it matters |
| `Yambler.JoinFirst` | yambler/src/main.rs:40-42 | the dumps appended one after another are the first dump followed by the rest |
| `Yambler.Frame` | yambler/src/main.rs:36-45 | header, dumps appended and 4 characters deleted right after the header when there is a document: the text is the header followed by the first dump without its `---` line and then the other dumps, or only the header when there is no document; a missing file name is shown as `??` |
| `Yambler.Run` | yambler/src/main.rs:13-49 | the run's text is: registry errors first, then rewrite errors, otherwise the framed dumps of the rewritten documents |

## Left out

- Command-line parsing with clap (yambler/src/main.rs:90-133): argument plumbing.
- Reading the template and snippet files and writing the output file
  (yambler/src/main.rs:14, 18, 46): I/O. The parsed documents are parameters of
  `Run`, and its result is the text that would be written.
- YAML parsing and emitting (`YamlLoader::load_from_str`, `YamlEmitter::dump`):
  these are library calls. Parse errors are not modelled. The emitter is the
  parameter `emit` of `Run`, taken to write one document as text that starts with
  `---\n`. Emitter errors (`EmitError`) are not modelled.
- Printing errors to stderr and the exit code (yambler/src/main.rs:135-154): I/O.
  An error is a datatype value with the data its message shows.
- yambler/src/errors.rs: error-chain boilerplate. The `Error` datatype stands in for it.
- `Path::file_name` (yambler/src/main.rs:36): a library call. Its outcome (`Some`
  name or `None`) is a parameter of `Frame` and `Run`.
- `Yaml::Real` stores its number as text, and that text is never computed with.
  `Yaml::Integer` is an `i64` range and is never computed with either.
- The `Alias` and `BadValue` variants of yaml_rust's `Yaml` are not modelled. The
  rewrite would return them unchanged through its catch-all arm.
- Directory mode (input and output directories, extension filtering) is not part of
  yambler/src/main.rs.
- `Yambler.Frame`: the model counts characters, while Rust's `header_len` counts
  bytes. The 4 deleted characters sit right after the header and are ASCII, so the
  text is the same either way.
- `Substitution.ErrorsExplained`: a circular reference is shown to name a key on the
  reported trail. The lemma does not prove that the keys on that trail reference
  each other in a chain.
