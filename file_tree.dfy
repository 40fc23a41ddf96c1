/**
 * The i18n directory as the script sees it through the fs module, held in
 * memory: the root's files, and its subdirectories (the namespaces) in the
 * order the root listing gives them.
 */
module FileTree {
  import opened Wrappers
  import opened Documents

  const Suffix: string := ".json"

  /** `name.endsWith('.json')`: the name is some stem followed by `.json`. */
  predicate IsJsonName(name: string): (b: bool)
    ensures b <==> |name| >= |Suffix| && name == name[..|name| - |Suffix|] + Suffix
  {
    assert |name| >= |Suffix| ==> name == name[..|name| - |Suffix|] + name[|name| - |Suffix|..];
    |name| >= |Suffix| && name[|name| - |Suffix|..] == Suffix
  }

  /** `${lang}.json` */
  function JsonName(lang: string): (name: string)
    ensures IsJsonName(name) && |name| == |lang| + |Suffix|
    ensures name[..|lang|] == lang
  {
    var name := lang + Suffix;
    assert name[|name| - |Suffix|..] == Suffix;
    assert name[..|lang|] == lang;
    name
  }

  /**
   * `path.basename(name, '.json')` for a name that ends in `.json`: the
   * suffix is removed, and a name that is just `.json` gives the empty
   * language, as the suffix check in Node's basename does.
   */
  function LangOf(name: string): (lang: string)
    requires IsJsonName(name)
    ensures JsonName(lang) == name
  {
    name[..|name| - |Suffix|]
  }

  /** The suffix strip and `${lang}.json` undo each other. */
  lemma LangOfJsonName(lang: string)
    ensures LangOf(JsonName(lang)) == lang
  {
    JsonNameInjective(LangOf(JsonName(lang)), lang);
  }

  /** `${a}.json` and `${b}.json` name the same file only when a and b are the same language. */
  lemma JsonNameInjective(a: string, b: string)
    requires JsonName(a) == JsonName(b)
    ensures a == b
  {
    assert JsonName(a)[..|a|] == JsonName(b)[..|b|];
  }

  /** An entry of a namespace directory. */
  datatype Entry =
    | File(content: Option<Doc>)   // None: the file does not parse as a JSON object
    | Folder

  /**
   * A namespace directory. One that is not readable cannot be listed, and the
   * files inside it can neither be seen, read nor removed.
   */
  datatype Namespace = Namespace(readable: bool, entries: map<string, Entry>)

  /**
   * The abstract state of the i18n directory: whether it exists and can be
   * listed, its files (None: the file does not parse), its subdirectories, and
   * the order in which the listing gives those subdirectories.
   */
  datatype FsState = FsState(
    rootExists: bool,
    rootReadable: bool,
    files: map<string, Option<Doc>>,
    dirOrder: seq<string>,
    dirs: map<string, Namespace>)

  predicate Distinct<T(==)>(s: seq<T>) {
    forall i, j :: 0 <= i < j < |s| ==> s[i] != s[j]
  }

  /** A name is a file or a directory, never both, and every directory is listed exactly once. */
  ghost predicate WellFormed(s: FsState) {
    && s.files.Keys !! s.dirs.Keys
    && Distinct(s.dirOrder)
    && (forall ns :: ns in s.dirOrder <==> ns in s.dirs)
  }

  /** The listing `order` without the names in `gone`, in the same order. */
  function Drop(order: seq<string>, gone: set<string>): (r: seq<string>)
    ensures forall x :: x in r <==> x in order && x !in gone
    ensures Distinct(order) ==> Distinct(r)
    ensures |r| <= |order|
  {
    if order == [] then []
    else if order[0] in gone then Drop(order[1..], gone)
    else
      var r := [order[0]] + Drop(order[1..], gone);
      assert Distinct(order) ==> order[0] !in order[1..];
      r
  }

  /** Reading `<root>/<name>`: a directory cannot be read, a file that does not parse is reported and skipped. */
  function RootRead(s: FsState, name: string): (r: Read)
    ensures r == Absent <==> name !in s.files && name !in s.dirs
    ensures r.Parsed? <==> name in s.files && s.files[name].Some?
    ensures r.Parsed? ==> s.files[name] == Some(r.doc)
    ensures name in s.dirs && name !in s.files ==> r == Unreadable
  {
    if name in s.files then
      match s.files[name]
      case Some(d) => Parsed(d)
      case None => Unreadable
    else if name in s.dirs then Unreadable
    else Absent
  }

  /** Reading `<root>/<ns>/<name>`; in a namespace that cannot be read, existsSync sees nothing. */
  function NamespaceRead(s: FsState, ns: string, name: string): (r: Read)
    ensures !(ns in s.dirs && s.dirs[ns].readable) ==> r == Absent
    ensures ns in s.dirs && s.dirs[ns].readable ==> (r == Absent <==> name !in s.dirs[ns].entries)
    ensures r.Parsed? <==>
      ns in s.dirs && s.dirs[ns].readable && name in s.dirs[ns].entries && s.dirs[ns].entries[name] != File(None)
      && s.dirs[ns].entries[name] != Folder
    ensures r.Parsed? ==> s.dirs[ns].entries[name] == File(Some(r.doc))
    ensures ns in s.dirs && s.dirs[ns].readable && name in s.dirs[ns].entries && s.dirs[ns].entries[name].Folder? ==>
      r == Unreadable
  {
    if ns in s.dirs && s.dirs[ns].readable && name in s.dirs[ns].entries then
      match s.dirs[ns].entries[name]
      case File(Some(d)) => Parsed(d)
      case _ => Unreadable
    else Absent
  }

  /** The i18n directory, changed in place by the script's writes and removals. */
  class Tree {
    var rootExists: bool
    var rootReadable: bool
    var files: map<string, Option<Doc>>
    var dirOrder: seq<string>
    var dirs: map<string, Namespace>

    function State(): FsState
      reads this
    {
      FsState(rootExists, rootReadable, files, dirOrder, dirs)
    }

    ghost predicate Valid()
      reads this
    {
      WellFormed(State())
    }

    constructor (s: FsState)
      requires WellFormed(s)
      ensures Valid() && State() == s
    {
      rootExists, rootReadable := s.rootExists, s.rootReadable;
      files, dirOrder, dirs := s.files, s.dirOrder, s.dirs;
    }

    /** `fs.writeFileSync(<root>/<name>, …)`: creates or replaces a root file; fails on a directory. */
    method WriteRootFile(name: string, doc: Doc) returns (ok: bool)
      requires Valid()
      modifies this
      ensures Valid()
      ensures ok == (rootExists && name !in dirs)
      ensures unchanged(`rootExists, `rootReadable, `dirOrder, `dirs)
      ensures files == if ok then old(files)[name := Some(doc)] else old(files)
    {
      ok := rootExists && name !in dirs;
      if ok {
        files := files[name := Some(doc)];
      }
    }

    /** `fs.unlinkSync(<root>/<ns>/<name>)`: removes a file; fails on a folder or in an unreadable namespace. */
    method Unlink(ns: string, name: string) returns (ok: bool)
      requires Valid()
      modifies this
      ensures Valid()
      ensures ok == (ns in old(dirs) && old(dirs)[ns].readable && name in old(dirs)[ns].entries
                     && old(dirs)[ns].entries[name].File?)
      ensures unchanged(`rootExists, `rootReadable, `files, `dirOrder)
      ensures dirs == if ok then old(dirs)[ns := old(dirs)[ns].(entries := old(dirs)[ns].entries - {name})] else old(dirs)
    {
      ok := ns in dirs && dirs[ns].readable && name in dirs[ns].entries && dirs[ns].entries[name].File?;
      if ok {
        dirs := dirs[ns := dirs[ns].(entries := dirs[ns].entries - {name})];
      }
    }

    /** `fs.rmdirSync(<root>/<ns>)`: removes an empty namespace directory. */
    method RemoveDir(ns: string) returns (ok: bool)
      requires Valid()
      modifies this
      ensures Valid()
      ensures ok == (ns in old(dirs) && old(dirs)[ns].entries == map[])
      ensures unchanged(`rootExists, `rootReadable, `files)
      ensures dirs == if ok then old(dirs) - {ns} else old(dirs)
      ensures dirOrder == if ok then Drop(old(dirOrder), {ns}) else old(dirOrder)
    {
      ok := ns in dirs && dirs[ns].entries == map[];
      if ok {
        dirs := dirs - {ns};
        dirOrder := Drop(dirOrder, {ns});
      }
    }
  }
}
