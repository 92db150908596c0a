# Prompt registry and keyword retriever, modelled in Dafny

This project models two pieces of a LangChain tutorial repository.

1. **`PromptManager`** (`prompt_manager.py`) is a registry of prompt configurations, keyed by intent.
   - Each intent holds an ordered list of `PromptConfig` records.
   - `register` replaces an entry with the same version or appends a new one.
   - `unregister` removes one version or the whole intent.
   - Lookups skip disabled entries.
   - With no version requested, an entry is chosen at random: a `randint` draw and a running weight sum (weighted A/B selection).
   - The chosen entry is shaped into a chat template (system message, optional history placeholder, human `{question}` slot).
   - `route` falls back to a default intent.
   - The registry can be saved to a record structure and loaded back from one.
2. **The keyword retriever** (`07_rag_basics.py`: `simple_retriever`, `format_docs`).
   - Each document of a fixed list is scored. The score is how many whitespace-separated tokens of the lower-cased query occur in the lower-cased content.
   - Documents with a positive score are sorted stably by decreasing score, and the first `top_k` are returned.
   - `format_docs` joins the returned contents with a blank line.

Layout:

- `common.dfy` (module `Common`): `Option`, `Result`, `Truthy` and `Distinct`. `Truthy` is Python's truth test on an optional string: `None` and `""` are false. `Distinct` says a sequence has no repeats.
- `prompt_config.dfy` (module `PromptConfigs`): the configuration record and the list-level logic.
  - Replace-or-append by version, and filtering a version out.
  - The `enabled` filter and the weighted walk.
  - Selection over one intent's list, and the message template.
- `registry.dfy` (module `Registries`): the manager's state as a value.
  - The state is a `map` from intent to list, plus the insertion order of its keys, because Python dicts are ordered.
  - Each manager operation is a function on that value, with its invariants.
  - Also the saved record structure and the save→load round trip.
- `prompt_manager.dfy` (module `PromptManagers`): `class PromptManager`.
  - Its fields `prompts`, `order` and `storagePath` are updated in place by its methods.
  - Each method's `ensures` ties the new state, or the result, to the function of `Registries` that specifies it.
  - Also `CreateDefaultManager` and the lookup method `SelectFrom`.
- `retriever.dfy` (module `RagRetriever`): `DOCUMENTS`, ASCII lowercasing, `str.split()`, substring scoring, the stable sort, Python slicing, `simple_retriever` and `format_docs`.

Inputs the model cannot see are passed in as parameters:

- The `random.randint(1, total)` draw is a parameter `r` of `GetConfig`, `GetPrompt` and `GetChain`; `Route` takes two draws, `r1` and `r2`. `r` stays unconstrained, so the code's fallback `return configs[0]` can be reached. The properties of the weighted choice are lemmas that assume `1 <= r <= total`.
- The file is a parameter `stored: Option<Snapshot>`: `None` means the file does not exist, and `Some(snapshot)` means `json.loads` of its text.
- The `llm` of `get_chain` and `route` is an uninterpreted type parameter `L`. `prompt | llm` is the pair `Chain(template, llm)`.
- Python's exceptions become `Failure`:
  - `EmptyDrawRange`: `randint(1, total)` with `total < 1` raises `ValueError`.
  - `IntentNotFound`: raised by `get_chain`.
  - `NoDefaultIntent`: raised by `route`.
  - `NoStoragePath`: raised by `save`.

Three behaviours of the code are worth knowing, and the model states them:

- **Save, then load, is not the identity.** `_load_from_file` calls `register(**record)`, and `register` has no `enabled` parameter, so:
  - Every loaded configuration is enabled.
  - Its metadata becomes `{"enabled": saved enabled, "metadata": saved metadata}`.
  - An intent whose list was empty is saved as `[]` and comes back as nothing.

  `Registries.SaveThenLoad` states exactly this. `Registries.SaveThenLoadChangesMetadata` is a concrete registry whose round trip gives a different registry.
- **A weight total below 1 raises.** When two or more configurations are enabled, no version is requested, and their weights sum below 1, `randint(1, total)` raises `ValueError`. The model returns `Failure(EmptyDrawRange)`. With a version requested, or a single enabled configuration, no draw is made and nothing is raised.
- **An emptied intent still counts.** After `unregister` removes the last version of an intent, the intent stays a key with an empty list, so `in` and `len` still count it.

## Model

| member | source | states |
|---|---|---|
| PromptConfigs.NewConfig | prompt_manager.py:65-73 | the definition: the configuration `register` builds from its arguments, always enabled, with the extra keyword arguments as metadata |
| PromptConfigs.IndexOfVersion | prompt_manager.py:79-82 | finds the first entry with the version; absent exactly when no entry has it |
| PromptConfigs.Upsert | prompt_manager.py:79-84 | the definition: the first entry with the new version is replaced, otherwise the new entry is appended |
| PromptConfigs.UpsertReplacesInPlace | prompt_manager.py:79-82 | re-registering an existing version overwrites the first entry with it; the index, the length and every other entry are unchanged |
| PromptConfigs.UpsertAppendsNew | prompt_manager.py:84 | a version the list lacks is appended at the end |
| PromptConfigs.UpsertKeepsVersionsDistinct | prompt_manager.py:75-85 | versions within one intent stay pairwise distinct, and the new entry is stored |
| PromptConfigs.WithoutVersion | prompt_manager.py:93-95 | the definition: the entries whose version differs, in order |
| PromptConfigs.WithoutVersionMembers | prompt_manager.py:92-95 | the filtered list holds exactly the entries whose version differs |
| PromptConfigs.WithoutAbsentVersion | prompt_manager.py:92-95 | removing a version no entry has leaves the list unchanged |
| PromptConfigs.WithoutVersionRemovesEntry | prompt_manager.py:92-95 | with distinct versions, removing a version deletes that one entry and keeps the others in order |
| PromptConfigs.Enabled | prompt_manager.py:109 | the definition: the enabled entries, in order; the result is no longer than the input |
| PromptConfigs.EnabledMembers | prompt_manager.py:109 | the filtered list holds exactly the enabled entries |
| PromptConfigs.EnabledWithoutVersion | prompt_manager.py:92-109 | filtering out a version and filtering by `enabled` commute |
| PromptConfigs.TotalWeight | prompt_manager.py:124 | the definition: the sum of all weights, the last prefix sum |
| PromptConfigs.WalkFrom | prompt_manager.py:126-131 | the definition of the loop with running sum `current`: add the weight and stop at the first entry where `r <= current`; a stop is always at an index of the list, and `None` means the loop ran to its end |
| PromptConfigs.SelectConfig | prompt_manager.py:109-131 | the definition of `get_config` on one list: no enabled entry gives nothing; a truthy version gives the first enabled entry with it; one enabled entry is returned; a weight total below 1 fails; otherwise the walk, with the first enabled entry as fallback |
| PromptConfigs.WeightedChoiceIsFirstReaching | prompt_manager.py:124-131 | for `1 <= r <= total` the walk stops at the first entry whose prefix weight sum reaches `r`; that entry has a positive weight; the fallback is never reached |
| PromptConfigs.SelectedIsEnabledMember | prompt_manager.py:104-131 | whatever `get_config` returns is an enabled member of the intent's list |
| PromptConfigs.SelectByVersion | prompt_manager.py:114-118 | with a requested version: the enabled entry with that version; absent exactly when no enabled entry has it |
| PromptConfigs.SelectSoleEnabled | prompt_manager.py:121-122 | with one enabled entry and no version, that entry is returned whatever the draw |
| PromptConfigs.SelectFailsIffEmptyRange | prompt_manager.py:121-125 | the lookup fails exactly when a draw is needed and the enabled weights sum below 1 |
| PromptConfigs.SelectWeighted | prompt_manager.py:121-131 | with several enabled entries and `1 <= r <= total`: the first enabled entry whose prefix sum reaches `r`, never a zero-weight one |
| PromptConfigs.SelectRemovedVersion | prompt_manager.py:92-118 | after removing a version, a lookup by that version finds nothing |
| PromptConfigs.SelectOtherVersion | prompt_manager.py:92-118 | after removing a version, a lookup by any other version gives the same result as before |
| PromptConfigs.BuildTemplate | prompt_manager.py:147-154 | the template is the system prompt, then the history placeholder exactly when `include_history`, then the human `{question}` slot |
| Registries.Registered | prompt_manager.py:54-85 | the definition: an unseen intent gets an empty list and goes to the end of the key order, then `Upsert` on its list |
| Registries.RegisteredKeepsValid | prompt_manager.py:54-85 | `register` keeps the registry invariant: keys and key order agree, no key is repeated in the order, versions are distinct per intent, entries belong to their intent |
| Registries.RegisteredReplacesInPlace | prompt_manager.py:79-82 | re-registering an existing version changes only that index of that intent's list; the key order is unchanged |
| Registries.RegisteredAppendsNew | prompt_manager.py:75-84 | a new version is appended to the intent's list; an unseen intent first gets a list and goes to the end of the key order |
| Registries.RegisteredKeepsAllEnabled | prompt_manager.py:65-73 | `register` stores `enabled = true`, so a registry whose entries are all enabled stays so |
| Registries.RemoveKey | prompt_manager.py:97 | deleting a key removes exactly it from the key order |
| Registries.RemoveAbsentKey | prompt_manager.py:97 | deleting a key that is not in the order leaves the order unchanged |
| Registries.RemoveKeyDropsEntry | prompt_manager.py:97 | in a key order without repeats, deleting the key at index `i` drops exactly that index, and the other keys keep their relative order |
| Registries.Unregistered | prompt_manager.py:87-98 | the definition: an unknown intent changes nothing; a truthy version filters that version out of the list; otherwise the intent is deleted from the map and the key order |
| Registries.UnregisteredKeepsValid | prompt_manager.py:87-98 | `unregister` keeps the registry invariant |
| Registries.UnregisterIntentRemovesKey | prompt_manager.py:87-97 | with no version, or `""`, the intent leaves the keys and the key order; in a valid registry the new order is the old one without the intent's index, the others in their order; an unknown intent leaves the registry unchanged |
| Registries.UnregisterVersionHidesIt | prompt_manager.py:92-95 | after removing a version, it is no longer found; the intent stays a key and the order is unchanged, even when its list becomes empty |
| Registries.UnregisterVersionKeepsOthers | prompt_manager.py:92-95 | removing a version leaves the lookup of every other version of the intent unchanged |
| Registries.ConfigFor | prompt_manager.py:104-131 | the definition: nothing for an unknown intent, otherwise `SelectConfig` on its list |
| Registries.PromptFor | prompt_manager.py:137-154 | the definition: an error or nothing is passed on; a resolved configuration becomes its `BuildTemplate` |
| Registries.KeyCountIsOrderLength | prompt_manager.py:227-228 | the number of keys equals the length of the key order |
| Registries.SnapshotOf | prompt_manager.py:192-206 | `save` emits every intent in key order, and every configuration (disabled ones too) in list order, with all eight fields |
| Registries.LoadedMetadata | prompt_manager.py:218 | the definition: the metadata `register(**record)` stores, a map holding the record's `enabled` and `metadata` |
| Registries.FromRecord | prompt_manager.py:218 | the definition: the configuration `register(**record)` builds, enabled, with `LoadedMetadata` |
| Registries.LoadRecords | prompt_manager.py:217-218 | the definition: `register` applied to each record of one intent, in order |
| Registries.Loaded | prompt_manager.py:210-218 | the definition: `LoadRecords` applied to every intent's records, in file order; the key is ignored |
| Registries.SaveThenLoad | prompt_manager.py:192-218 | loading a save gives back every intent with a non-empty list, in key order; each entry is at its index, enabled, with the saved `enabled` and `metadata` nested in its metadata |
| Registries.SaveThenLoadEnablesAll | prompt_manager.py:215-218 | every configuration loaded from a save is enabled |
| Registries.SaveThenLoadChangesMetadata | prompt_manager.py:215-218 | a concrete registry whose round trip gives a different registry |
| PromptManagers.PromptManager.constructor | prompt_manager.py:43-48 | an empty path means no storage path; the saved file is loaded only when a path is given and the file exists |
| PromptManagers.PromptManager.Register | prompt_manager.py:54-85 | the new state is the registry function `Registered` applied to the config `register` builds; the invariant is kept |
| PromptManagers.PromptManager.Unregister | prompt_manager.py:87-98 | returns true exactly when the intent was present; the new state is `Unregistered`; the invariant is kept |
| PromptManagers.PromptManager.ListIntents | prompt_manager.py:100-102 | each registered intent appears exactly once |
| PromptManagers.PromptManager.Contains | prompt_manager.py:224-225 | `in` agrees with `list_intents` |
| PromptManagers.PromptManager.Count | prompt_manager.py:227-228 | `len` equals the number of intents `list_intents` lists |
| PromptManagers.PromptManager.GetConfig | prompt_manager.py:104-131 | returns the registry lookup `ConfigFor`; a returned config is an enabled member of the intent's list |
| PromptManagers.SelectFrom | prompt_manager.py:109-131 | the loops over the enabled list compute the selection function `SelectConfig` |
| PromptManagers.PromptManager.GetPrompt | prompt_manager.py:137-154 | absent exactly when `get_config` returns nothing; otherwise the template begins with the resolved config's system prompt and has 3 entries with history, 2 without |
| PromptManagers.PromptManager.GetChain | prompt_manager.py:156-161 | fails with `IntentNotFound` when there is no template; otherwise the pair of template and llm |
| PromptManagers.PromptManager.Route | prompt_manager.py:167-180 | the default intent is tried only when the primary gives nothing and a default is given; fails with `NoDefaultIntent` when both give nothing |
| PromptManagers.PromptManager.Save | prompt_manager.py:186-206 | fails exactly when neither an argument path nor a storage path exists; otherwise writes the snapshot to the argument path, or else to the storage path |
| PromptManagers.PromptManager.LoadFromFile | prompt_manager.py:210-218 | does nothing without a storage path or a file; otherwise the state is the fold of `register` over every record |
| PromptManagers.RegisterFresh | prompt_manager.py:75-84 | registering a fresh intent with all defaults adds a one-entry list and appends the intent to the key order |
| PromptManagers.RegisterFourFresh | prompt_manager.py:237-283 | four registrations of distinct fresh intents with all defaults give four one-entry lists, with the intents in registration order |
| PromptManagers.CreateDefaultManager | prompt_manager.py:235-285 | intents general, presale, aftersale, technical in that order, each with one enabled version-1.0, weight-100 config with the given name and prompt |
| RagRetriever.DocumentsDistinct | 07_rag_basics.py:19-36 | no document appears twice in `DOCUMENTS` |
| RagRetriever.Lower | 07_rag_basics.py:43 | same length, each character lower-cased, no ASCII capital left |
| RagRetriever.Split | 07_rag_basics.py:47 | every token is non-empty and holds no whitespace |
| RagRetriever.SplitToken | 07_rag_basics.py:47 | a non-empty word without whitespace splits into itself alone |
| RagRetriever.SplitAtSpace | 07_rag_basics.py:47 | every whitespace character is a split point: the tokens of `a + c + b` are those of `a`, then those of `b` |
| RagRetriever.SplitKeepsNonSpace | 07_rag_basics.py:47 | the tokens, concatenated, are exactly the non-whitespace characters of the input, in order |
| RagRetriever.Occurs | 07_rag_basics.py:47 | the definition of `word in text`: the word is a prefix of the text or occurs in its tail |
| RagRetriever.CountOccurring | 07_rag_basics.py:47 | the definition of `sum(1 for …)`: one for each query token that occurs; the count is at most the number of tokens |
| RagRetriever.Score | 07_rag_basics.py:43-47 | the definition: `CountOccurring` over the tokens of the lower-cased query against the lower-cased content; at most the number of tokens |
| RagRetriever.OccursAtSomePosition | 07_rag_basics.py:47 | `word in text` holds exactly when the word starts at some position of the text |
| RagRetriever.CountPositiveIffSomeOccurs | 07_rag_basics.py:47-48 | the score is positive exactly when some query token occurs in the content |
| RagRetriever.CountAppend | 07_rag_basics.py:47 | tokens are counted with multiplicity: the count over a concatenation is the sum of the counts |
| RagRetriever.Scored | 07_rag_basics.py:42-49 | the definition: a `Hit(score, doc)` for each document with a positive score, in document order |
| RagRetriever.ScoredMembers | 07_rag_basics.py:42-49 | each result carries its document's score, that score is positive, and its document is from the input |
| RagRetriever.PositiveMembers | 07_rag_basics.py:48-49 | holds exactly the documents with a positive score |
| RagRetriever.Insert | 07_rag_basics.py:52 | the definition: the hit goes before the first entry with a score no larger than its own; the length grows by one |
| RagRetriever.SortByScore | 07_rag_basics.py:52 | the definition: insertion sort by decreasing score; each hit is inserted into the sorted rest of the list ahead of equal scores, so ties keep input order; the length is kept |
| RagRetriever.SortIsPermutation | 07_rag_basics.py:52 | the sorted list is a permutation of the results |
| RagRetriever.SortIsSorted | 07_rag_basics.py:52 | the sorted list is in non-increasing score order |
| RagRetriever.SortIsStable | 07_rag_basics.py:52 | for every score, the entries with that score keep their relative order |
| RagRetriever.DocsOfSort | 07_rag_basics.py:52 | sorting permutes the documents of the results |
| RagRetriever.SliceEnd | 07_rag_basics.py:53 | the end of `s[:k]`: `min(k, len)` for `k >= 0`, `max(0, len + k)` for a negative `k` |
| RagRetriever.Take | 07_rag_basics.py:53 | the definition: `results[:top_k]`, the prefix up to `SliceEnd` |
| RagRetriever.Retrieve | 07_rag_basics.py:38-53 | the definition of `simple_retriever`: the documents of `Take(SortByScore(Scored(docs, q)), top_k)` |
| RagRetriever.RankDocuments | 07_rag_basics.py:42-53 | the scoring loop, the stable sort and the slice compute `Retrieve` of any document list |
| RagRetriever.SimpleRetriever | 07_rag_basics.py:38-53 | the loop, sort and slice compute `Retrieve` over `DOCUMENTS`; the result has no repeats and holds only documents of `DOCUMENTS` with a positive score |
| RagRetriever.RetrievedSubMultiset | 07_rag_basics.py:45-53 | every returned document comes from the input, at most as often as it occurs there |
| RagRetriever.RetrievedArePositive | 07_rag_basics.py:48-53 | every returned document is an input document with score > 0 |
| RagRetriever.RetrievedLength | 07_rag_basics.py:53 | the length is `min(top_k, P)` for `top_k >= 0` and `max(0, P + top_k)` for a negative one, where `P` is the number of positively scored documents |
| RagRetriever.RetrievedSorted | 07_rag_basics.py:51-53 | the result is in non-increasing score order |
| RagRetriever.RetrievedAreTop | 07_rag_basics.py:51-53 | a positively scored document that is left out scores no higher than any returned one |
| RagRetriever.RetrievedStable | 07_rag_basics.py:45-53 | for every score, the returned documents with that score are the first ones of the input with that score, in input order |
| RagRetriever.RetrievedDistinct | 07_rag_basics.py:45-53 | an input without repeats gives a result without repeats |
| RagRetriever.Join | 07_rag_basics.py:57 | the definition of `sep.join`: `""` for no parts, the part for one, otherwise the first part, the separator, and the join of the rest |
| RagRetriever.JoinLength | 07_rag_basics.py:57 | the joined text is the parts plus one separator between each pair of neighbours |
| RagRetriever.JoinAppend | 07_rag_basics.py:57 | joining one more part appends the separator and that part |
| RagRetriever.FormatDocs | 07_rag_basics.py:55-57 | the empty list gives `""`; one document gives its content unchanged; otherwise the text begins with the first content |

## Left out

- The `random.randint` draw is a parameter. The claim that selection frequencies follow the weight ratios is about the random distribution, which the model does not capture.
- `prompt | llm` and `.invoke`: the LLM framework is not part of this model. A chain is the pair of a template and an uninterpreted `llm` value.
- `ChatPromptTemplate` and `MessagesPlaceholder` internals: a template is a list of `System`, `Placeholder` and `Human` entries. How the text is rendered is not modelled.
- File I/O and JSON text (`Path.exists`, `read_text`, `write_text`, `json.dumps`, `json.loads`): only the record structure is modelled. `PromptManager.Save` returns the target path and the records instead of writing them.
- Records with keys other than the eight that `save` writes: `register(**record)` would place them in the metadata, but the model's records have exactly the eight fields.
- JSON floats and other value kinds in metadata: `Value` covers null, booleans, integers, strings, arrays and objects.
- `Path` normalisation: a path is kept as the string given.
- `register` returns the manager itself to allow chained calls. The model's `Register` returns nothing.
- Aliasing: `get_config` returns the stored object, and a caller could mutate it, for example to disable it. This is the only way a disabled entry can arise in the code. The list-level lemmas hold for lists containing disabled entries.
- Concurrent access to the registry or the file: the model is single-threaded.
- RagRetriever.Lower: models `str.lower` for ASCII letters only, because Unicode case mapping is a library table outside this model. The documents' Latin text is ASCII.
- RagRetriever.SortByScore: specifies `list.sort` by its result: stable, by decreasing score. Python's in-place sorting algorithm itself is not modelled.
- `simple_rag` and `document_splitting_demo` (LLM calls and an external text splitter), and the other demo files of the repository, are not part of this model.
