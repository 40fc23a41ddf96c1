/**
 * main of merge-namespaces.js: parse the arguments, discover, merge every
 * language into its root file, then clean up the namespaces.
 *
 * The Tree given to MergeNamespaces stands for path.join(process.cwd(), i18nDir):
 * the `--dir` value is always joined under the working directory, so an
 * absolute `--dir /x` names `<cwd>/x`.
 */
module Pipeline {
  import opened Wrappers
  import opened Documents
  import opened FileTree
  import opened Args
  import opened Discovery
  import opened Merging
  import opened Cleanup

  /** How a run ends; Failed is the exit with status 1. */
  datatype Outcome = HelpShown | VersionShown | Failed(reason: Fatal) | NothingToMerge | Completed

  /**
   * The i18n directory after the merged document of every language in `langs`
   * is written to `<lang>.json` at the root; a write onto a directory fails
   * and changes nothing.
   */
  ghost function WriteAll(s: FsState, nss: seq<string>, langs: set<string>): FsState {
    s.(files := s.files + Written(s, nss, langs))
  }

  /** The root files that the writes of `langs` create or replace. */
  ghost function Written(s: FsState, nss: seq<string>, langs: set<string>): map<string, Option<Doc>> {
    map name | name in JsonNames(langs) && name !in s.dirs :: Some(MergedDoc(s, nss, LangOf(name)))
  }

  ghost function JsonNames(langs: set<string>): set<string> {
    set lang | lang in langs :: JsonName(lang)
  }

  /** Discovery, merge and cleanup on the i18n directory `s`. */
  ghost function MergePass(s: FsState): (Outcome, FsState) {
    if !s.rootExists then (Failed(RootMissing), s)
    else if !s.rootReadable then (Failed(RootUnreadable), s)
    else if Languages(s) == {} then (NothingToMerge, s)
    else (Completed, CleanupState(WriteAll(s, s.dirOrder, Languages(s)), s.dirOrder))
  }

  /** A whole run: help and version end it before the directory is looked at. */
  ghost function Run(args: seq<string>, s: FsState): (Outcome, FsState) {
    var ts := Tokenize(args);
    if HasHelp(ts) then (HelpShown, s)
    else if HasVersion(ts) then (VersionShown, s)
    else MergePass(s)
  }

  /** The language loop of main: merge, then write the root file, for each language in turn. */
  method MergeAll(t: Tree, langs: seq<string>, nss: seq<string>)
    requires t.Valid() && t.rootExists
    requires Distinct(langs)
    modifies t
    ensures t.Valid()
    ensures t.State() == WriteAll(old(t.State()), nss, Elems(langs))
  {
    ghost var s0 := t.State();
    WriteNothing(s0, nss);
    for i := 0 to |langs|
      invariant t.Valid() && t.rootExists
      invariant t.State() == WriteAll(s0, nss, Elems(langs[..i]))
    {
      var lang := langs[i];
      assert Elems(langs[..i + 1]) == Elems(langs[..i]) + {lang};
      assert lang !in Elems(langs[..i]);
      WriteStep(s0, nss, Elems(langs[..i]), lang);
      var merged := MergeLanguage(t, nss, lang);
      var _ := t.WriteRootFile(JsonName(lang), merged);
    }
    assert langs[..|langs|] == langs;
  }

  lemma WriteNothing(s: FsState, nss: seq<string>)
    ensures WriteAll(s, nss, {}) == s
  {
    assert s.files + map[] == s.files;
  }

  /** Writing one more language: only its own root file changes, and the merge sees the root file as it was. */
  lemma WriteStep(s: FsState, nss: seq<string>, done: set<string>, lang: string)
    requires lang !in done
    ensures RootRead(WriteAll(s, nss, done), JsonName(lang)) == RootRead(s, JsonName(lang))
    ensures WriteAll(s, nss, done).dirs == s.dirs
    ensures MergedDoc(WriteAll(s, nss, done), nss, lang) == MergedDoc(s, nss, lang)
    ensures WriteAll(s, nss, done + {lang}) ==
      var w := WriteAll(s, nss, done);
      if JsonName(lang) in s.dirs then w else w.(files := w.files[JsonName(lang) := Some(MergedDoc(s, nss, lang))])
  {
    var w := WriteAll(s, nss, done);
    NotYetWritten(s, nss, done, lang);
    assert JsonName(lang) in w.files ==> w.files[JsonName(lang)] == s.files[JsonName(lang)];
    MergedFrame(w, s, nss, lang);
    WrittenStep(s, nss, done, lang);
    if JsonName(lang) !in s.dirs {
      UnionUpdate(s.files, Written(s, nss, done), JsonName(lang), Some(MergedDoc(s, nss, lang)));
    }
  }

  lemma UnionUpdate<K, V>(a: map<K, V>, b: map<K, V>, k: K, v: V)
    ensures a + b[k := v] == (a + b)[k := v]
  {
  }

  lemma NotYetWritten(s: FsState, nss: seq<string>, done: set<string>, lang: string)
    requires lang !in done
    ensures JsonName(lang) !in Written(s, nss, done)
  {
  }

  lemma WrittenStep(s: FsState, nss: seq<string>, done: set<string>, lang: string)
    ensures Written(s, nss, done + {lang}) ==
      if JsonName(lang) in s.dirs then Written(s, nss, done)
      else Written(s, nss, done)[JsonName(lang) := Some(MergedDoc(s, nss, lang))]
  {
    assert JsonNames(done + {lang}) == JsonNames(done) + {JsonName(lang)};
    JsonNameInjective(LangOf(JsonName(lang)), lang);
  }

  /**
   * main. With `--help` or `--version` nothing is read or changed; a missing
   * or unlistable directory fails and changes nothing; with no language found
   * nothing is written or removed; otherwise every language is merged and
   * written, and then the namespaces are cleaned up.
   */
  method MergeNamespaces(args: seq<string>, t: Tree) returns (outcome: Outcome)
    requires t.Valid()
    modifies t
    ensures t.Valid()
    ensures (outcome, t.State()) == Run(args, old(t.State()))
  {
    var opts := ParseArgs(args);
    if opts.help {
      return HelpShown;
    }
    if opts.version {
      return VersionShown;
    }
    var found := Discover(t);
    if found.Failure? {
      return Failed(found.error);
    }
    var languages, namespaces := found.value.languages, found.value.namespaces;
    if |languages| == 0 {
      return NothingToMerge;
    }
    assert languages[0] in Elems(languages);
    MergeAll(t, languages, namespaces);
    if |namespaces| == 0 {
      CleanupNothing(t.State(), namespaces);  // "Nothing to clean up."
    } else {
      CleanupNamespaces(t, namespaces);
    }
    return Completed;
  }
}
