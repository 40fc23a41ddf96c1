/**
 * Discovery: the language codes and the namespaces of the i18n directory
 * (merge-namespaces.js, main, before the merge).
 */
module Discovery {
  import opened Wrappers
  import opened FileTree

  ghost function Elems(s: seq<string>): set<string> {
    set x | x in s
  }

  /** The languages named by the `.json` entries among `names`. */
  ghost function LangsOf(names: set<string>): set<string> {
    set n | n in names && IsJsonName(n) :: LangOf(n)
  }

  lemma LangsOfAdd(names: set<string>, n: string)
    ensures LangsOf(names + {n}) == LangsOf(names) + if IsJsonName(n) then {LangOf(n)} else {}
  {
  }

  /** The languages of the root listing: its files and its directories alike. */
  ghost function RootLanguages(s: FsState): set<string> {
    LangsOf(s.files.Keys + s.dirs.Keys)
  }

  /** The languages found in those of the namespaces `nss` that can be listed. */
  ghost function NamespaceLanguages(s: FsState, nss: seq<string>): set<string> {
    set ns, n | ns in nss && ns in s.dirs && s.dirs[ns].readable && n in s.dirs[ns].entries && IsJsonName(n)
      :: LangOf(n)
  }

  lemma NamespaceLanguagesSnoc(s: FsState, nss: seq<string>, ns: string)
    ensures NamespaceLanguages(s, nss + [ns]) == NamespaceLanguages(s, nss)
      + if ns in s.dirs && s.dirs[ns].readable then LangsOf(s.dirs[ns].entries.Keys) else {}
  {
    var extra := if ns in s.dirs && s.dirs[ns].readable then LangsOf(s.dirs[ns].entries.Keys) else {};
    forall l | l in NamespaceLanguages(s, nss + [ns])
      ensures l in NamespaceLanguages(s, nss) + extra
    {
      var x, n :| x in nss + [ns] && x in s.dirs && s.dirs[x].readable && n in s.dirs[x].entries && IsJsonName(n)
        && l == LangOf(n);
      if x != ns {
        assert x in nss;
      }
    }
    forall l | l in extra
      ensures l in NamespaceLanguages(s, nss + [ns])
    {
      var n :| n in s.dirs[ns].entries && IsJsonName(n) && l == LangOf(n);
      assert ns in nss + [ns];
    }
    forall l | l in NamespaceLanguages(s, nss)
      ensures l in NamespaceLanguages(s, nss + [ns])
    {
      var x, n :| x in nss && x in s.dirs && s.dirs[x].readable && n in s.dirs[x].entries && IsJsonName(n)
        && l == LangOf(n);
      assert x in nss + [ns];
    }
  }

  /** Every language the script processes. */
  ghost function Languages(s: FsState): set<string> {
    RootLanguages(s) + NamespaceLanguages(s, s.dirOrder)
  }

  /**
   * Where languages come from: every `<lang>.json` entry of the root, and of
   * every namespace that can be listed, names a language, and every language
   * is named by such an entry.
   */
  lemma LanguageSources(s: FsState, lang: string)
    requires WellFormed(s)
    ensures lang in Languages(s) <==>
      || JsonName(lang) in s.files || JsonName(lang) in s.dirs
      || exists ns :: ns in s.dirs && s.dirs[ns].readable && JsonName(lang) in s.dirs[ns].entries
  {
    LangOfJsonName(lang);
    var name := JsonName(lang);
    if name in s.files || name in s.dirs {
      assert name in s.files.Keys + s.dirs.Keys;
    }
    if ns :| ns in s.dirs && s.dirs[ns].readable && name in s.dirs[ns].entries {
      assert ns in s.dirOrder;
      assert lang in NamespaceLanguages(s, s.dirOrder);
    }
    if lang in NamespaceLanguages(s, s.dirOrder) {
      var ns, n :| ns in s.dirOrder && ns in s.dirs && s.dirs[ns].readable && n in s.dirs[ns].entries && IsJsonName(n)
        && lang == LangOf(n);
      assert n == name;
    }
  }

  /** A namespace that cannot be listed is skipped: what it holds does not change the languages. */
  lemma UnreadableNamespaceIgnored(s: FsState, ns: string)
    requires ns in s.dirs && !s.dirs[ns].readable
    ensures Languages(s.(dirs := s.dirs[ns := Namespace(false, map[])])) == Languages(s)
  {
    var s' := s.(dirs := s.dirs[ns := Namespace(false, map[])]);
    assert s'.files.Keys + s'.dirs.Keys == s.files.Keys + s.dirs.Keys;
    assert NamespaceLanguages(s', s.dirOrder) == NamespaceLanguages(s, s.dirOrder);
  }

  /** Why the script exits with status 1. */
  datatype Fatal = RootMissing | RootUnreadable

  /** The language codes, in Set insertion order, and the namespaces, in listing order. */
  datatype Found = Found(languages: seq<string>, namespaces: seq<string>)

  /** `Set.prototype.add` on a Set kept as a sequence in insertion order. */
  method SetAdd(elems: seq<string>, x: string) returns (r: seq<string>)
    requires Distinct(elems)
    ensures Distinct(r)
    ensures elems <= r
    ensures Elems(r) == Elems(elems) + {x}
  {
    r := elems;
    if x !in elems {
      r := elems + [x];
    }
  }

  /** `names.filter(endsWith('.json')).forEach(f => languages.add(basename(f, '.json')))` on a Set kept as a sequence. */
  method AddLanguages(langs: seq<string>, names: set<string>) returns (out: seq<string>)
    requires Distinct(langs)
    ensures Distinct(out)
    ensures langs <= out
    ensures Elems(out) == Elems(langs) + LangsOf(names)
  {
    out := langs;
    var rest := names;
    ghost var seen: set<string> := {};
    while rest != {}
      invariant rest == names - seen && seen <= names
      invariant Distinct(out) && langs <= out
      invariant Elems(out) == Elems(langs) + LangsOf(seen)
      decreases |rest|
    {
      var n :| n in rest;
      out := AddLanguageOf(langs, out, seen, n);
      seen := seen + {n};
      rest := rest - {n};
    }
  }

  /** One iteration of the loop above: the name n adds its language when it is a `.json` name. */
  method AddLanguageOf(langs: seq<string>, out: seq<string>, ghost seen: set<string>, n: string) returns (out': seq<string>)
    requires Distinct(out) && langs <= out
    requires Elems(out) == Elems(langs) + LangsOf(seen)
    ensures Distinct(out') && langs <= out'
    ensures Elems(out') == Elems(langs) + LangsOf(seen + {n})
  {
    out' := out;
    if IsJsonName(n) {
      out' := SetAdd(out, LangOf(n));
    }
    LangsOfAdd(seen, n);
  }

  /**
   * The discovery part of main: a missing or unlistable i18n directory is
   * fatal; otherwise the languages come from the root listing and from every
   * namespace that can be listed (one that cannot is reported and skipped),
   * and the namespaces are the root's directories in listing order.
   */
  method Discover(t: Tree) returns (r: Result<Found, Fatal>)
    requires t.Valid()
    ensures !t.rootExists ==> r == Failure(RootMissing)
    ensures t.rootExists && !t.rootReadable ==> r == Failure(RootUnreadable)
    ensures t.rootExists && t.rootReadable ==>
      && r.Success?
      && Distinct(r.value.languages)
      && Elems(r.value.languages) == Languages(t.State())
      && r.value.namespaces == t.dirOrder
  {
    if !t.rootExists {
      return Failure(RootMissing);
    }
    if !t.rootReadable {
      return Failure(RootUnreadable);
    }
    ghost var s := t.State();
    var languages := AddLanguages([], t.files.Keys + t.dirs.Keys);
    var namespaces := t.dirOrder;
    for i := 0 to |namespaces|
      invariant Distinct(languages)
      invariant Elems(languages) == RootLanguages(s) + NamespaceLanguages(s, namespaces[..i])
    {
      var ns := namespaces[i];
      assert namespaces[..i + 1] == namespaces[..i] + [ns];
      NamespaceLanguagesSnoc(s, namespaces[..i], ns);
      assert ns in t.dirs;
      if t.dirs[ns].readable {
        languages := AddLanguages(languages, t.dirs[ns].entries.Keys);
      }
    }
    assert namespaces[..|namespaces|] == namespaces;
    return Success(Found(languages, namespaces));
  }
}
