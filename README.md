# merge-namespaces, modelled in Dafny

`merge-namespaces.js` is a one-shot command-line tool for Tolgee i18n trees. A tree has a root directory holding one `<lang>.json` translation document per language. Each subdirectory of the root is a *namespace*, and it can hold its own `<lang>.json` files. One run of the tool does four things:

1. It reads `--dir`/`-d`, `--help`/`-h` and `--version`/`-v` from the command line.
2. It discovers the languages and the namespaces.
3. For each language, it merges every namespace's document in listing order, then the root document (which wins), and writes the result over the root `<lang>.json`.
4. It unlinks every `.json` entry of every namespace, and removes each namespace directory left empty.

The model is written in the source's imperative form. Each stage is a method, proved against a ghost specification function. The properties the script promises are proved as lemmas about those functions.

| file | module | what it holds |
|---|---|---|
| `wrappers.dfy` | `Wrappers` | `Option` and `Result` |
| `args.dfy` | `Args` | `parseArgs` as an index loop, specified by `Tokenize`, which groups the arguments the way the loop consumes them |
| `documents.dfy` | `Documents` | JSON values, translation documents (maps), the shallow merge `{...a, ...b}`, and the outcome of reading a file |
| `file_tree.dfy` | `FileTree` | the i18n directory as a class `Tree`; its writes, unlinks and directory removals; `<lang>.json` names and `path.basename(f, '.json')` |
| `discovery.dfy` | `Discovery` | the language `Set` and the namespace list |
| `merging.dfy` | `Merging` | the per-language merge loop and its precedence lemmas |
| `cleanup.dfy` | `Cleanup` | the unlink and rmdir loops |
| `pipeline.dfy` | `Pipeline` | `main`: the merge-and-write loop and the whole run |
| `runs.dfy` | `Runs` | what a completed run leaves behind, and idempotence of a second run |

The filesystem is the object `Tree`. Its fields are:

- whether the root exists and can be listed;
- the root's non-directory entries, each mapped to its parse result (`None` means malformed);
- the root's directories in listing order;
- each directory's entries, plus a flag saying whether the directory can be listed.

`Tree.State()` packs these fields into an `FsState` value, and the specification functions are stated on that value. Unreadable files follow Node's behaviour:

- `fs.existsSync` reports no file inside a directory that cannot be searched.
- `readFileSync` fails on a directory.
- `writeFileSync` fails onto a directory.
- `unlinkSync` fails on a directory.

In these corner cases the model follows what the script does:

- The script never removes a folder named `<x>.json` inside a namespace, because `unlinkSync` fails on it.
- The script does not clean a namespace that cannot be listed.
- A file named just `.json` yields the empty language (Node's `basename` returns `''` when the name equals the suffix), and that language's root file is `.json` itself.
- Idempotence holds for every root file that exists after the first run. The second run can add new root files, each holding `{}`, in a corner case that can occur once per language (see `RerunKeepsRootDocuments` below).

## Model

| member | source | states |
|---|---|---|
| Args.ParseArgs | merge-namespaces.js:7-31 | help is set iff some argument the loop reads as a flag (not one consumed as a `--dir` value) is `--help`/`-h`, and likewise version for `--version`/`-v`; the directory is the value of the last `--dir`/`-d` that has one, else `i18n` |
| Args.Tokenize | merge-namespaces.js:15-28 | the groups the loop consumes, one per iteration: at most one per argument, and none only when there are no arguments; TokenizeRoundTrip and TokenizeUnique pin the grouping down |
| Args.TokenizeRoundTrip | merge-namespaces.js:15-28 | the loop's grouping of the arguments loses and adds nothing, and every group matches its flag; only a final `--dir` can lack a value |
| Args.TokenizeUnique | merge-namespaces.js:15-28 | any well-formed grouping of an argument list is the one the loop makes |
| Args.NoFlagsKeepsDefaults | merge-namespaces.js:9-13 | with no recognised flag, every argument is ignored and the options keep their defaults |
| Args.DirFlagEffect | merge-namespaces.js:22-26 | `--dir v` appended to arguments that do not end in a waiting `--dir` sets the directory to v; a trailing `--dir` leaves it unchanged; help and version are unaffected |
| Args.ExtendArgs | merge-namespaces.js:15-28 | appending the spelling of one more token appends that token, unless a `--dir` is still waiting for its value |
| Args.TokenizeAt | merge-namespaces.js:16-27 | what one loop iteration at index i consumes, and the next index for each kind of flag |
| Args.Advance | merge-namespaces.js:16-27 | one loop iteration: help is set by `--help`/`-h`, version by `--version`/`-v`, the directory by `--dir`/`-d` with a value, which is then skipped; a `--dir` with no value changes nothing |
| Args.AppendToken | merge-namespaces.js:18-26 | how help, version and the directory change when one more group is consumed |
| Documents.Merge | merge-namespaces.js:149 | the merged keys are the union, the second document wins on a shared key, and the first document's value is kept elsewhere |
| FileTree.JsonName | merge-namespaces.js:141 | `${lang}.json` ends in `.json`, is five characters longer, and starts with the language |
| FileTree.IsJsonName | merge-namespaces.js:85 | a name ends in `.json` iff it is some stem followed by `.json` |
| FileTree.LangOf | merge-namespaces.js:87 | `path.basename(f, '.json')` on a `.json` name gives the language whose `${lang}.json` is that name, so `.json` gives the empty language |
| FileTree.LangOfJsonName | merge-namespaces.js:116 | the basename strip undoes `${lang}.json` for every language, the empty one included |
| FileTree.JsonNameInjective | merge-namespaces.js:158 | two languages share a root file only when they are the same language |
| FileTree.RootRead | merge-namespaces.js:160-170 | a root file is absent iff no entry has that name; it is parsed iff it is a file that parses, with that document; a directory of that name cannot be read |
| FileTree.NamespaceRead | merge-namespaces.js:143-153 | nothing in a namespace that cannot be listed is visible; otherwise a file is absent iff there is no entry, parsed iff it is a file that parses, and a folder cannot be read |
| FileTree.Drop | merge-namespaces.js:216 | removing directories from the listing keeps exactly the others, without repeats |
| FileTree.Tree.WriteRootFile | merge-namespaces.js:174-179 | the write succeeds iff the root exists and the name is not a directory; only that root file changes |
| FileTree.Tree.Unlink | merge-namespaces.js:203-208 | the unlink succeeds iff the namespace can be listed and the entry is a file; only that entry goes |
| FileTree.Tree.RemoveDir | merge-namespaces.js:214-220 | rmdir succeeds iff the directory exists and is empty; it then takes the directory out of the listing and changes nothing else |
| Discovery.SetAdd | merge-namespaces.js:88 | `Set.add` on a set kept in insertion order: no repeats, old order kept, and exactly x added |
| Discovery.AddLanguageOf | merge-namespaces.js:85-88 | one name adds its basename to the language set iff it ends in `.json`, keeping the old order and no repeats |
| Discovery.AddLanguages | merge-namespaces.js:84-89 | after the loop the language set is the old one plus the basename of every `.json` name, with the old order kept |
| Discovery.Discover | merge-namespaces.js:73-123 | a missing root fails with RootMissing and an unlistable root fails with RootUnreadable; otherwise the languages come from the root and every listable namespace, without repeats, and the namespaces are the root's directories in listing order |
| Discovery.LanguageSources | merge-namespaces.js:82-123 | a language is discovered iff `<lang>.json` is an entry of the root or of a namespace that can be listed |
| Discovery.UnreadableNamespaceIgnored | merge-namespaces.js:119-122 | the contents of a namespace that cannot be listed do not change the languages |
| Discovery.NamespaceLanguagesSnoc | merge-namespaces.js:109-123 | visiting one more namespace adds its languages iff it can be listed |
| Merging.MergeLanguage | merge-namespaces.js:137-171 | the merge loop for one language computes the namespace fold followed by the root document |
| Merging.FoldWinner | merge-namespaces.js:140-155 | a key is in the fold iff some namespace provides it; its value comes from the last namespace that provides it |
| Merging.MergedPrecedence | merge-namespaces.js:137-166 | the merged keys are the union over all well-formed namespace documents and the root document; the root's value wins; otherwise the last namespace in discovery order wins |
| Merging.SkipNonContributing | merge-namespaces.js:143-153 | a namespace whose file is missing or malformed can be dropped from the order without changing the result |
| Merging.FoldWithoutProviders | merge-namespaces.js:140-155 | with no well-formed namespace document the fold stays empty |
| Merging.KeepsRootWithoutNamespaceDocs | merge-namespaces.js:160-166 | with no well-formed namespace document the merge is exactly the root document |
| Merging.MergedFrame | merge-namespaces.js:141-158 | the merge of a language depends only on the namespaces and on its own root file |
| Cleanup.UnlinkTranslationFiles | merge-namespaces.js:197-209 | the unlink loop leaves the namespace cleaned and changes nothing else |
| Cleanup.CleanNamespace | merge-namespaces.js:188-229 | one namespace: skipped if gone or not listable; otherwise cleaned, then removed iff nothing is left |
| Cleanup.CleanupNamespaces | merge-namespaces.js:183-231 | the cleanup loop over the namespaces computes the cleanup specification |
| Cleanup.CleanupStep | merge-namespaces.js:187-230 | cleaning one more namespace composes with the cleanup of those before it |
| Cleanup.CleanedSpec | merge-namespaces.js:197-209 | cleaning adds and changes no entry, keeps every non-`.json` entry, and leaves no `.json` file in a listable namespace |
| Cleanup.CleanedIdempotent | merge-namespaces.js:197-223 | cleaning twice is cleaning once, and removability is decided by the first cleaning |
| Cleanup.CleanupResult | merge-namespaces.js:191-223 | a listed namespace is gone iff it was listable and held only `.json` files; otherwise it is present and cleaned; unlisted ones are untouched; the listing matches the remaining directories |
| Cleanup.CleanupNothing | merge-namespaces.js:183-194 | cleaning no namespace, or only gone or unlistable ones, changes nothing |
| Cleanup.CleanupSettled | merge-namespaces.js:212-223 | cleanup of cleaned, non-empty namespaces changes nothing |
| Pipeline.MergeAll | merge-namespaces.js:133-180 | the language loop writes each language's merged document to its root file, except where that name is a directory |
| Pipeline.WriteStep | merge-namespaces.js:158-175 | writing one more language changes only its root file, and its merge sees the directory as it was before any write |
| Pipeline.MergeNamespaces | merge-namespaces.js:57-234 | help and version change nothing; a missing or unlistable root fails and changes nothing; with no language nothing changes; otherwise the state is the merge followed by the cleanup |
| Runs.RunRootFiles | merge-namespaces.js:133-180 | after a run, each discovered language's root file holds its merged document unless the name is a directory; every other root file keeps its content |
| Runs.MalformedRootReplaced | merge-namespaces.js:160-175 | a malformed root document is overwritten by the namespace-only merge |
| Runs.RootOnlyRewrittenUnchanged | merge-namespaces.js:137-175 | a root document with no namespace document for its language is written back unchanged |
| Runs.RunWellFormed | merge-namespaces.js:174-179 | a run keeps the directory well formed |
| Runs.NamespacesAfterRun | merge-namespaces.js:187-230 | after a run every remaining namespace is cleaned and not removable (non-empty if it can be listed); one that can be listed holds no `.json` file, though a folder named `<x>.json` stays; one that cannot be listed is kept with exactly the entries it had |
| Runs.NoNamespaceDocsAfterRun | merge-namespaces.js:140-155 | after a run no namespace provides a document for any language |
| Runs.RerunKeepsRootFile | merge-namespaces.js:137-175 | a second run rewrites each root file left by the first run with the same content |
| Runs.RerunKeepsRootDocuments | merge-namespaces.js:57-234 | a second run after a completed one removes no namespace, keeps the listing, and keeps every root file's content |

## Left out

- Console output is not modelled: the progress lines, the error messages, `showHelp` and `showVersion`. The version text depends on `package.json`, which is not part of this model. Only the outcome of a run is kept.
- `path.join` and `process.cwd()` are not modelled. The `Tree` given to `MergeNamespaces` stands for `path.join(process.cwd(), i18nDir)`: the `--dir` value is always joined under the working directory, so an absolute `--dir /x` names `<cwd>/x`.
- `JSON.parse` and `JSON.stringify(…, null, 2)` are not modelled. A file is either a parsed document or malformed, and output formatting is not kept.
- Key insertion order in the merged object is not kept. Documents are maps.
- Top-level JSON values that are not objects are left out. Spreading an array or a string adds its index keys, and spreading `null` or a number adds nothing; such a file counts as a parsed empty document or as malformed.
- The root is listed twice, once for languages and once for namespaces. The model uses one listing and one "can be listed" flag for both, so the two listings cannot disagree.
- Failures beyond the modelled ones are not modelled: I/O errors, permissions on single files, `rmdir` racing with other processes, and a namespace removed out of band during the run. The model covers writes onto directories, unlinks of folders, unlistable namespaces and a missing or unlistable root.
- One `readable` flag per namespace stands both for listing it (`readdirSync`) and for reaching the files in it (`existsSync`, `readFileSync`, `unlinkSync`). A directory that can be searched but not listed, or listed but not searched, behaves differently in the script's merge and unlink, and the model does not capture that.
- The order of files inside a namespace is not kept. The unlinks commute, so the outcome does not depend on it.
- The order of root files is not kept. Languages form a set, and writes to distinct names commute.
- Cleanup.CleanupNamespaces: requires the namespace list to have no repeats. This always holds, because the list is a directory listing.
- Runs.RerunKeepsRootDocuments: covers only root files that exist after the first run. One corner case breaks it:
  - a root directory `<lang>.json` is a namespace that the first run's cleanup removes;
  - another namespace holds a folder named `<lang>.json`;
  - the second run then writes a new root `<lang>.json` holding `{}`;
  - this can happen for several languages in the same run.
