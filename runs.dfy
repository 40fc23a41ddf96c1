/**
 * What a completed run of main does to the i18n directory, and what a
 * second run does after it.
 */
module Runs {
  import opened Wrappers
  import opened Documents
  import opened FileTree
  import opened Discovery
  import opened Merging
  import opened Cleanup
  import opened Pipeline

  /** The root file `name` is written by the merge of `langs`: it is `<lang>.json` for one of them and not a directory. */
  lemma WrittenAt(s: FsState, nss: seq<string>, langs: set<string>, name: string)
    ensures name in Written(s, nss, langs) <==> IsJsonName(name) && LangOf(name) in langs && name !in s.dirs
    ensures name in Written(s, nss, langs) ==> Written(s, nss, langs)[name] == Some(MergedDoc(s, nss, LangOf(name)))
  {
    if name in JsonNames(langs) {
      var lang :| lang in langs && JsonName(lang) == name;
      JsonNameInjective(lang, LangOf(name));
    }
    if IsJsonName(name) && LangOf(name) in langs {
      assert JsonName(LangOf(name)) in JsonNames(langs);
    }
  }

  /**
   * The root files after a completed run: every discovered language's
   * `<lang>.json` holds its merged document (unless that name is a
   * directory, where the write fails), and every other root file keeps its
   * content.
   */
  lemma RunRootFiles(s: FsState, name: string)
    requires MergePass(s).0 == Completed
    ensures name in MergePass(s).1.files <==>
      name in s.files || (IsJsonName(name) && LangOf(name) in Languages(s) && name !in s.dirs)
    ensures IsJsonName(name) && LangOf(name) in Languages(s) && name !in s.dirs ==>
      MergePass(s).1.files[name] == Some(MergedDoc(s, s.dirOrder, LangOf(name)))
    ensures name in s.files && !(IsJsonName(name) && LangOf(name) in Languages(s)) ==>
      MergePass(s).1.files[name] == s.files[name]
  {
    WrittenAt(s, s.dirOrder, Languages(s), name);
  }

  /**
   * A malformed root `<lang>.json` contributes nothing and is overwritten
   * by the merge of the namespaces alone.
   */
  lemma MalformedRootReplaced(s: FsState, lang: string)
    requires WellFormed(s)
    requires MergePass(s).0 == Completed
    requires JsonName(lang) in s.files && s.files[JsonName(lang)] == None
    ensures MergePass(s).1.files[JsonName(lang)] == Some(FoldNamespaces(s, s.dirOrder, lang))
  {
    var name := JsonName(lang);
    JsonNameInjective(LangOf(name), lang);
    RunRootFiles(s, name);
    assert MergePass(s).1.files[name] == Some(MergedDoc(s, s.dirOrder, lang));
    assert RootRead(s, name) == Unreadable;
    assert MergedDoc(s, s.dirOrder, lang) == FoldNamespaces(s, s.dirOrder, lang);
  }

  /** A root `<lang>.json` with no namespace file for the language is written back as it was. */
  lemma RootOnlyRewrittenUnchanged(s: FsState, lang: string, d: Doc)
    requires WellFormed(s)
    requires MergePass(s).0 == Completed
    requires JsonName(lang) in s.files && s.files[JsonName(lang)] == Some(d)
    requires forall i :: 0 <= i < |s.dirOrder| ==> !NamespaceRead(s, s.dirOrder[i], JsonName(lang)).Parsed?
    ensures MergePass(s).1.files[JsonName(lang)] == Some(d)
  {
    RunRootFiles(s, JsonName(lang));
    JsonNameInjective(LangOf(JsonName(lang)), lang);
    KeepsRootWithoutNamespaceDocs(s, s.dirOrder, lang, d);
  }

  /** The merged files never land on a directory, so a run keeps the directory well formed. */
  lemma RunWellFormed(s: FsState)
    requires WellFormed(s)
    ensures WellFormed(MergePass(s).1)
  {
    if MergePass(s).0 == Completed {
      var w := WriteAll(s, s.dirOrder, Languages(s));
      forall name | name in Written(s, s.dirOrder, Languages(s))
        ensures name !in s.dirs
      {
        WrittenAt(s, s.dirOrder, Languages(s), name);
      }
      assert WellFormed(w);
      CleanupResult(w, s.dirOrder, "");
    }
  }

  /**
   * After a completed run every remaining namespace is cleaned and not
   * removable: one that can be listed holds no `.json` file, and one that
   * cannot be listed is left exactly as it was.
   */
  lemma NamespacesAfterRun(s: FsState, ns: string)
    requires WellFormed(s)
    requires MergePass(s).0 == Completed
    ensures ns in MergePass(s).1.dirs ==>
      var d := MergePass(s).1.dirs[ns];
      !Removable(d) && Cleaned(d) == d && (d.readable ==> forall n :: n in d.entries && IsJsonName(n) ==> d.entries[n].Folder?)
    ensures ns in s.dirs && !s.dirs[ns].readable ==>
      ns in MergePass(s).1.dirs && MergePass(s).1.dirs[ns] == s.dirs[ns]
  {
    var w := WriteAll(s, s.dirOrder, Languages(s));
    CleanupResult(w, s.dirOrder, ns);
    if ns in s.dirs {
      CleanedSpec(s.dirs[ns]);
    }
    if ns in MergePass(s).1.dirs {
      CleanedIdempotent(s.dirs[ns]);
    }
  }

  /** After a completed run no namespace holds a well-formed document for any language. */
  lemma NoNamespaceDocsAfterRun(s: FsState, lang: string)
    requires WellFormed(s)
    requires MergePass(s).0 == Completed
    ensures var s1 := MergePass(s).1;
      forall i :: 0 <= i < |s1.dirOrder| ==> !NamespaceRead(s1, s1.dirOrder[i], JsonName(lang)).Parsed?
  {
    var s1 := MergePass(s).1;
    forall i | 0 <= i < |s1.dirOrder|
      ensures !NamespaceRead(s1, s1.dirOrder[i], JsonName(lang)).Parsed?
    {
      NamespacesAfterRun(s, s1.dirOrder[i]);
    }
  }

  /** Every root file a second run writes was written by the first run. */
  lemma RerunRootFile(s: FsState, name: string)
    requires WellFormed(s)
    requires MergePass(s).0 == Completed
    requires name in MergePass(s).1.files
    requires IsJsonName(name) && LangOf(name) in Languages(MergePass(s).1)
    ensures name !in s.dirs && LangOf(name) in Languages(s)
    ensures MergePass(s).1.files[name] == Some(MergedDoc(s, s.dirOrder, LangOf(name)))
  {
    var s1 := MergePass(s).1;
    var lang := LangOf(name);
    RunRootFiles(s, name);
    if name in s.files {
      assert name in s.files.Keys + s.dirs.Keys;
      assert lang in RootLanguages(s);
    }
  }

  /** A second run rewrites each root file the first run left with the same content. */
  lemma RerunKeepsRootFile(s: FsState, name: string)
    requires WellFormed(s)
    requires MergePass(s).0 == Completed
    requires MergePass(MergePass(s).1).0 == Completed
    requires name in MergePass(s).1.files
    ensures name in MergePass(MergePass(s).1).1.files
    ensures MergePass(MergePass(s).1).1.files[name] == MergePass(s).1.files[name]
  {
    var s1 := MergePass(s).1;
    RunWellFormed(s);
    RunRootFiles(s1, name);
    if IsJsonName(name) && LangOf(name) in Languages(s1) && name !in s1.dirs {
      var lang := LangOf(name);
      RerunRootFile(s, name);
      NoNamespaceDocsAfterRun(s, lang);
      KeepsRootWithoutNamespaceDocs(s1, s1.dirOrder, lang, MergedDoc(s, s.dirOrder, lang));
    }
  }

  /**
   * Running main a second time after a completed run removes no namespace
   * and leaves every root file with the content the first run gave it.
   */
  lemma RerunKeepsRootDocuments(s: FsState)
    requires WellFormed(s)
    requires MergePass(s).0 == Completed
    ensures MergePass(MergePass(s).1).0 in {NothingToMerge, Completed}
    ensures MergePass(MergePass(s).1).1.dirs == MergePass(s).1.dirs
    ensures MergePass(MergePass(s).1).1.dirOrder == MergePass(s).1.dirOrder
    ensures forall name :: name in MergePass(s).1.files ==>
      name in MergePass(MergePass(s).1).1.files && MergePass(MergePass(s).1).1.files[name] == MergePass(s).1.files[name]
  {
    var s1 := MergePass(s).1;
    if MergePass(s1).0 == Completed {
      var w := WriteAll(s1, s1.dirOrder, Languages(s1));
      forall ns | ns in w.dirs
        ensures !Removable(w.dirs[ns]) && Cleaned(w.dirs[ns]) == w.dirs[ns]
      {
        NamespacesAfterRun(s, ns);
      }
      CleanupSettled(w, s1.dirOrder);
      forall name | name in s1.files
        ensures name in MergePass(s1).1.files && MergePass(s1).1.files[name] == s1.files[name]
      {
        RerunKeepsRootFile(s, name);
      }
    }
  }
}
