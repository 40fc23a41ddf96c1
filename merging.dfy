/**
 * The per-language merge of merge-namespaces.js: the namespace documents are
 * spread into an accumulator in namespace order, then the root document is
 * spread last so that its entries win.
 */
module Merging {
  import opened Documents
  import opened FileTree

  /** The accumulator after the namespaces `nss`, in order. */
  ghost function FoldNamespaces(s: FsState, nss: seq<string>, lang: string): Doc
    decreases |nss|
  {
    if nss == [] then map[]
    else Contribute(FoldNamespaces(s, nss[..|nss| - 1], lang), NamespaceRead(s, nss[|nss| - 1], JsonName(lang)))
  }

  /** The document written to `<root>/<lang>.json`. */
  ghost function MergedDoc(s: FsState, nss: seq<string>, lang: string): Doc {
    Contribute(FoldNamespaces(s, nss, lang), RootRead(s, JsonName(lang)))
  }

  /** Namespace `ns` has a well-formed `<lang>.json` that defines key k. */
  ghost predicate Provides(s: FsState, ns: string, lang: string, k: string) {
    NamespaceRead(s, ns, JsonName(lang)).Parsed? && k in NamespaceRead(s, ns, JsonName(lang)).doc
  }

  /** The root has a well-formed `<lang>.json` that defines key k. */
  ghost predicate RootProvides(s: FsState, lang: string, k: string) {
    RootRead(s, JsonName(lang)).Parsed? && k in RootRead(s, JsonName(lang)).doc
  }

  /**
   * The merge loop for one language: every namespace in order, each file that
   * exists and parses spread over the accumulator, then the root file.
   */
  method MergeLanguage(t: Tree, nss: seq<string>, lang: string) returns (merged: Doc)
    requires t.Valid()
    ensures merged == MergedDoc(t.State(), nss, lang)
  {
    merged := map[];
    for i := 0 to |nss|
      invariant merged == FoldNamespaces(t.State(), nss[..i], lang)
    {
      var read := NamespaceRead(t.State(), nss[i], JsonName(lang));
      if read.Parsed? {
        merged := Merge(merged, read.doc);
      }
      assert nss[..i + 1][..i] == nss[..i];
    }
    assert nss[..|nss|] == nss;
    var root := RootRead(t.State(), JsonName(lang));
    if root.Parsed? {
      merged := Merge(merged, root.doc);
    }
  }

  /**
   * Between namespaces the later one wins: a key is in the fold exactly when
   * some namespace provides it, and its value is that of the last namespace
   * that does.
   */
  lemma {:induction false} FoldWinner(s: FsState, nss: seq<string>, lang: string, k: string)
    ensures k in FoldNamespaces(s, nss, lang) <==> exists i :: 0 <= i < |nss| && Provides(s, nss[i], lang, k)
    ensures k in FoldNamespaces(s, nss, lang) ==>
      exists i :: && 0 <= i < |nss| && Provides(s, nss[i], lang, k)
                  && FoldNamespaces(s, nss, lang)[k] == NamespaceRead(s, nss[i], JsonName(lang)).doc[k]
                  && forall j :: i < j < |nss| ==> !Provides(s, nss[j], lang, k)
    decreases |nss|
  {
    if nss != [] {
      var last := |nss| - 1;
      var prefix := nss[..last];
      FoldWinner(s, prefix, lang, k);
      assert forall i :: 0 <= i < last ==> prefix[i] == nss[i];
      if Provides(s, nss[last], lang, k) {
        assert FoldNamespaces(s, nss, lang)[k] == NamespaceRead(s, nss[last], JsonName(lang)).doc[k];
      } else if k in FoldNamespaces(s, prefix, lang) {
        var i :| && 0 <= i < |prefix| && Provides(s, prefix[i], lang, k)
                 && FoldNamespaces(s, prefix, lang)[k] == NamespaceRead(s, prefix[i], JsonName(lang)).doc[k]
                 && forall j :: i < j < |prefix| ==> !Provides(s, prefix[j], lang, k);
        assert FoldNamespaces(s, nss, lang)[k] == FoldNamespaces(s, prefix, lang)[k];
        assert forall j :: i < j < |nss| ==> !Provides(s, nss[j], lang, k);
      } else {
        assert k !in FoldNamespaces(s, nss, lang);
        assert forall i :: 0 <= i < |nss| ==> !Provides(s, nss[i], lang, k);
      }
    }
  }

  /**
   * The merged document holds the keys of every well-formed namespace file and
   * of the well-formed root file; on a key the root file defines, the root's
   * value wins; on any other key, the last namespace that defines it wins.
   */
  lemma MergedPrecedence(s: FsState, nss: seq<string>, lang: string, k: string)
    ensures k in MergedDoc(s, nss, lang) <==>
      RootProvides(s, lang, k) || exists i :: 0 <= i < |nss| && Provides(s, nss[i], lang, k)
    ensures RootProvides(s, lang, k) ==> MergedDoc(s, nss, lang)[k] == RootRead(s, JsonName(lang)).doc[k]
    ensures !RootProvides(s, lang, k) && k in MergedDoc(s, nss, lang) ==>
      exists i :: && 0 <= i < |nss| && Provides(s, nss[i], lang, k)
                  && MergedDoc(s, nss, lang)[k] == NamespaceRead(s, nss[i], JsonName(lang)).doc[k]
                  && forall j :: i < j < |nss| ==> !Provides(s, nss[j], lang, k)
  {
    FoldWinner(s, nss, lang, k);
  }

  /** A namespace whose file is missing, unreadable or malformed can be left out without changing the fold. */
  lemma {:induction false} FoldSkips(s: FsState, p: seq<string>, x: string, q: seq<string>, lang: string)
    requires !NamespaceRead(s, x, JsonName(lang)).Parsed?
    ensures FoldNamespaces(s, p + [x] + q, lang) == FoldNamespaces(s, p + q, lang)
    decreases |q|
  {
    if q == [] {
      assert (p + [x] + q)[..|p|] == p;
      assert p + q == p;
    } else {
      var q' := q[..|q| - 1];
      FoldSkips(s, p, x, q', lang);
      assert (p + [x] + q)[..|p + [x] + q| - 1] == p + [x] + q';
      assert (p + q)[..|p + q| - 1] == p + q';
    }
  }

  /** A missing or malformed namespace file contributes nothing to the merged document. */
  lemma SkipNonContributing(s: FsState, p: seq<string>, x: string, q: seq<string>, lang: string)
    requires !NamespaceRead(s, x, JsonName(lang)).Parsed?
    ensures MergedDoc(s, p + [x] + q, lang) == MergedDoc(s, p + q, lang)
  {
    FoldSkips(s, p, x, q, lang);
  }

  /** With no well-formed namespace file, the fold stays empty. */
  lemma {:induction false} FoldWithoutProviders(s: FsState, nss: seq<string>, lang: string)
    requires forall i :: 0 <= i < |nss| ==> !NamespaceRead(s, nss[i], JsonName(lang)).Parsed?
    ensures FoldNamespaces(s, nss, lang) == map[]
    decreases |nss|
  {
    if nss != [] {
      FoldWithoutProviders(s, nss[..|nss| - 1], lang);
    }
  }

  /** With no well-formed namespace file, the merge writes back the root document unchanged. */
  lemma KeepsRootWithoutNamespaceDocs(s: FsState, nss: seq<string>, lang: string, d: Doc)
    requires forall i :: 0 <= i < |nss| ==> !NamespaceRead(s, nss[i], JsonName(lang)).Parsed?
    requires RootRead(s, JsonName(lang)) == Parsed(d)
    ensures MergedDoc(s, nss, lang) == d
  {
    FoldWithoutProviders(s, nss, lang);
    MergeIntoEmpty(d);
  }

  /** The merge reads only the namespace directories and the language's own root file. */
  lemma {:induction false} FoldFrame(s: FsState, s': FsState, nss: seq<string>, lang: string)
    requires s.dirs == s'.dirs
    ensures FoldNamespaces(s, nss, lang) == FoldNamespaces(s', nss, lang)
    decreases |nss|
  {
    if nss != [] {
      FoldFrame(s, s', nss[..|nss| - 1], lang);
    }
  }

  lemma MergedFrame(s: FsState, s': FsState, nss: seq<string>, lang: string)
    requires s.dirs == s'.dirs
    requires RootRead(s, JsonName(lang)) == RootRead(s', JsonName(lang))
    ensures MergedDoc(s, nss, lang) == MergedDoc(s', nss, lang)
  {
    FoldFrame(s, s', nss, lang);
  }
}
