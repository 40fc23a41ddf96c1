/**
 * Cleanup of merge-namespaces.js: every `.json` file of each namespace is
 * removed, and a namespace directory left empty is removed with it.
 */
module Cleanup {
  import opened FileTree

  /** The `.json` names among a directory's entries (readdirSync filtered by endsWith). */
  function JsonEntries(entries: map<string, Entry>): set<string> {
    set n | n in entries && IsJsonName(n)
  }

  /**
   * The entries once every `.json` name outside `pending` is unlinked: such
   * files go, folders stay (unlinkSync fails on them), other names stay.
   */
  ghost function Unlinked(entries: map<string, Entry>, pending: set<string>): map<string, Entry> {
    map n | n in entries && !(IsJsonName(n) && n !in pending && entries[n].File?) :: entries[n]
  }

  /** A namespace after its `.json` files are unlinked; one that cannot be listed is left as it is. */
  ghost function Cleaned(d: Namespace): Namespace {
    if d.readable then d.(entries := Unlinked(d.entries, {})) else d
  }

  /** The namespace directory is empty once its `.json` files are gone, so rmdirSync removes it. */
  ghost predicate Removable(d: Namespace) {
    d.readable && Cleaned(d).entries == map[]
  }

  /** The namespaces among `nss` that cleanup removes. */
  ghost function Gone(s: FsState, nss: seq<string>): set<string> {
    set ns | ns in nss && ns in s.dirs && Removable(s.dirs[ns])
  }

  /** The i18n directory after cleanup of the namespaces `nss`. */
  ghost function CleanupState(s: FsState, nss: seq<string>): FsState {
    s.(dirs := map ns | ns in s.dirs && ns !in Gone(s, nss) :: if ns in nss then Cleaned(s.dirs[ns]) else s.dirs[ns],
       dirOrder := Drop(s.dirOrder, Gone(s, nss)))
  }

  /**
   * Cleanup of one namespace: skipped when the directory no longer exists or
   * cannot be listed; otherwise every `.json` entry is unlinked (a folder
   * named so stays) and the directory is removed when nothing is left in it.
   */
  method CleanNamespace(t: Tree, ns: string)
    requires t.Valid()
    modifies t
    ensures t.Valid()
    ensures t.State() == CleanOne(old(t.State()), ns)
  {
    if ns !in t.dirs || !t.dirs[ns].readable {
      return;
    }
    UnlinkTranslationFiles(t, ns);
    if t.dirs[ns].entries == map[] {
      var _ := t.RemoveDir(ns);
    }
  }

  /** The unlink loop over a namespace's `.json` entries. */
  method UnlinkTranslationFiles(t: Tree, ns: string)
    requires t.Valid() && ns in t.dirs && t.dirs[ns].readable
    modifies t
    ensures t.Valid()
    ensures unchanged(t`rootExists, t`rootReadable, t`files, t`dirOrder)
    ensures t.dirs == old(t.dirs)[ns := Cleaned(old(t.dirs)[ns])]
  {
    var d0 := t.dirs[ns];
    var pending := JsonEntries(d0.entries);
    ghost var left := d0.entries;
    NothingUnlinked(d0);
    while pending != {}
      invariant t.Valid()
      invariant pending <= JsonEntries(d0.entries)
      invariant left == Unlinked(d0.entries, pending)
      invariant unchanged(t`rootExists, t`rootReadable, t`files, t`dirOrder)
      invariant t.dirs.Keys == old(t.dirs).Keys && t.dirs[ns] == d0.(entries := left)
      invariant forall m :: m in t.dirs && m != ns ==> t.dirs[m] == old(t.dirs)[m]
      decreases |pending|
    {
      var n :| n in pending;
      UnlinkedStep(d0.entries, pending, n);
      var _ := t.Unlink(ns, n);
      left := if d0.entries[n].File? then left - {n} else left;
      pending := pending - {n};
    }
    assert t.dirs == old(t.dirs)[ns := d0.(entries := left)];
  }

  lemma NothingUnlinked(d: Namespace)
    ensures Unlinked(d.entries, JsonEntries(d.entries)) == d.entries
  {
  }

  /** Unlinking one more name removes it when it is a file and leaves a folder. */
  lemma UnlinkedStep(entries: map<string, Entry>, pending: set<string>, n: string)
    requires n in pending && n in entries && IsJsonName(n)
    ensures n in Unlinked(entries, pending)
    ensures Unlinked(entries, pending - {n}) ==
      if entries[n].File? then Unlinked(entries, pending) - {n} else Unlinked(entries, pending)
  {
  }

  /** What cleanup does to one namespace: the body of the cleanup loop. */
  ghost function CleanOne(s: FsState, ns: string): FsState {
    if ns !in s.dirs || !s.dirs[ns].readable then s
    else if Cleaned(s.dirs[ns]).entries == map[] then s.(dirs := s.dirs - {ns}, dirOrder := Drop(s.dirOrder, {ns}))
    else s.(dirs := s.dirs[ns := Cleaned(s.dirs[ns])])
  }

  /**
   * The cleanup loop of main over the namespaces found by discovery (a
   * directory listing, so no name twice).
   */
  method CleanupNamespaces(t: Tree, nss: seq<string>)
    requires t.Valid()
    requires Distinct(nss)
    modifies t
    ensures t.Valid()
    ensures t.State() == CleanupState(old(t.State()), nss)
  {
    ghost var s0 := t.State();
    CleanupNothing(s0, []);
    for i := 0 to |nss|
      invariant t.Valid()
      invariant t.State() == CleanupState(s0, nss[..i])
    {
      assert nss[..i + 1] == nss[..i] + [nss[i]];
      CleanupStep(s0, nss[..i], nss[i]);
      CleanNamespace(t, nss[i]);
    }
    assert nss[..|nss|] == nss;
  }

  lemma {:induction false} DropNothing(order: seq<string>)
    ensures Drop(order, {}) == order
  {
    if order != [] {
      DropNothing(order[1..]);
    }
  }

  lemma {:induction false} DropDrop(order: seq<string>, a: set<string>, b: set<string>)
    ensures Drop(Drop(order, a), b) == Drop(order, a + b)
  {
    if order != [] {
      DropDrop(order[1..], a, b);
    }
  }

  /** Cleaning no namespace, or only namespaces that are gone or cannot be listed, changes nothing. */
  lemma CleanupNothing(s: FsState, nss: seq<string>)
    requires forall ns :: ns in nss && ns in s.dirs ==> !s.dirs[ns].readable
    ensures CleanupState(s, nss) == s
  {
    assert Gone(s, nss) == {};
    DropNothing(s.dirOrder);
  }

  /** Cleaning one more namespace after `done` is cleaning `done + [ns]`. */
  lemma CleanupStep(s: FsState, done: seq<string>, ns: string)
    requires WellFormed(s)
    requires ns !in done
    ensures CleanupState(s, done + [ns]) == CleanOne(CleanupState(s, done), ns)
  {
    var s1 := CleanupState(s, done);
    var g1, gx := Gone(s, done), Gone(s, [ns]);
    GoneStep(s, done, ns);
    CleanupStepDirs(s, done, ns);
    DropDrop(s.dirOrder, g1, gx);
    if gx == {} {
      DropNothing(s1.dirOrder);
    } else {
      assert gx == {ns};
    }
  }

  lemma GoneStep(s: FsState, done: seq<string>, ns: string)
    requires ns !in done
    ensures ns in CleanupState(s, done).dirs <==> ns in s.dirs
    ensures ns in s.dirs ==> CleanupState(s, done).dirs[ns] == s.dirs[ns]
    ensures Gone(s, [ns]) == if ns in s.dirs && Removable(s.dirs[ns]) then {ns} else {}
    ensures Gone(s, done + [ns]) == Gone(s, done) + Gone(s, [ns])
  {
    assert ns !in Gone(s, done);
  }

  lemma CleanupStepDirs(s: FsState, done: seq<string>, ns: string)
    requires ns !in done
    requires ns in CleanupState(s, done).dirs <==> ns in s.dirs
    requires ns in s.dirs ==> CleanupState(s, done).dirs[ns] == s.dirs[ns]
    requires Gone(s, [ns]) == if ns in s.dirs && Removable(s.dirs[ns]) then {ns} else {}
    requires Gone(s, done + [ns]) == Gone(s, done) + Gone(s, [ns])
    ensures CleanupState(s, done + [ns]).dirs == CleanOne(CleanupState(s, done), ns).dirs
  {
    var s1 := CleanupState(s, done);
    var gx := Gone(s, [ns]);
    var lhs, rhs := CleanupState(s, done + [ns]).dirs, CleanOne(s1, ns).dirs;
    forall m | m in lhs
      ensures m in rhs && lhs[m] == rhs[m]
    {
      assert m in s1.dirs && m !in gx;
    }
    forall m | m in rhs
      ensures m in lhs
    {
      assert m in s1.dirs;
    }
  }

  /**
   * What cleanup leaves of a namespace: nothing is added or changed, every
   * non-`.json` entry stays, and no `.json` file remains (a folder so named
   * cannot be unlinked). A namespace that cannot be listed keeps everything.
   */
  lemma CleanedSpec(d: Namespace)
    ensures Cleaned(d).readable == d.readable
    ensures forall n :: n in Cleaned(d).entries ==> n in d.entries && Cleaned(d).entries[n] == d.entries[n]
    ensures forall n :: n in d.entries && !IsJsonName(n) ==> n in Cleaned(d).entries
    ensures d.readable ==> forall n :: n in Cleaned(d).entries && IsJsonName(n) ==> Cleaned(d).entries[n].Folder?
    ensures !d.readable ==> Cleaned(d) == d
  {
  }

  /** Cleaning a cleaned namespace changes nothing, and removability is decided by the first cleanup. */
  lemma CleanedIdempotent(d: Namespace)
    ensures Cleaned(Cleaned(d)) == Cleaned(d)
    ensures Removable(Cleaned(d)) == Removable(d)
  {
    if d.readable {
      var e := Cleaned(d).entries;
      assert Unlinked(e, {}) == e;
    }
  }

  /**
   * The outcome of cleanup for one listed namespace: it is gone exactly when
   * it could be listed and held nothing but `.json` files; otherwise it is
   * there, cleaned. Namespaces not listed are untouched, and the listing
   * order keeps exactly the directories that remain.
   */
  lemma CleanupResult(s: FsState, nss: seq<string>, ns: string)
    requires WellFormed(s)
    ensures ns in nss ==> (ns in CleanupState(s, nss).dirs <==> ns in s.dirs && !Removable(s.dirs[ns]))
    ensures ns in nss && ns in CleanupState(s, nss).dirs ==> CleanupState(s, nss).dirs[ns] == Cleaned(s.dirs[ns])
    ensures ns !in nss ==> (ns in CleanupState(s, nss).dirs <==> ns in s.dirs)
    ensures ns !in nss && ns in s.dirs ==> CleanupState(s, nss).dirs[ns] == s.dirs[ns]
    ensures ns in CleanupState(s, nss).dirOrder <==> ns in CleanupState(s, nss).dirs
    ensures WellFormed(CleanupState(s, nss))
  {
  }

  /** Cleanup of a directory whose namespaces are all cleaned and non-empty changes nothing. */
  lemma CleanupSettled(s: FsState, nss: seq<string>)
    requires forall ns :: ns in s.dirs ==> !Removable(s.dirs[ns]) && Cleaned(s.dirs[ns]) == s.dirs[ns]
    ensures CleanupState(s, nss) == s
  {
    assert Gone(s, nss) == {};
    DropNothing(s.dirOrder);
  }
}
