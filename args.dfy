/**
 * Command-line parsing of merge-namespaces.js (parseArgs).
 *
 * The loop walks the arguments with an index; `--dir`/`-d` consumes the
 * argument after it. The ghost function Tokenize says what each iteration of
 * that loop consumes, and ParseArgs is proved against it.
 */
module Args {

  /** The options record that parseArgs returns. */
  datatype Options = Options(i18nDir: string, help: bool, version: bool)

  /** The directory used when no `--dir` is given. */
  const DefaultDir: string := "i18n"

  predicate IsHelpFlag(a: string) { a == "--help" || a == "-h" }
  predicate IsVersionFlag(a: string) { a == "--version" || a == "-v" }
  predicate IsDirFlag(a: string) { a == "--dir" || a == "-d" }
  predicate IsFlag(a: string) { IsHelpFlag(a) || IsVersionFlag(a) || IsDirFlag(a) }

  /** What one iteration of the argument loop consumes. */
  datatype Token =
    | Help(flag: string)
    | Version(flag: string)
    | Dir(flag: string, value: string)   // `--dir` with the argument after it
    | DanglingDir(flag: string)          // `--dir` as the very last argument
    | Ignored(arg: string)               // anything the loop does not recognise

  /** The arguments, grouped the way the loop visits them. */
  ghost function Tokenize(args: seq<string>): (ts: seq<Token>)
    ensures |ts| <= |args|
    ensures ts == [] <==> args == []
    decreases |args|
  {
    if args == [] then []
    else if IsHelpFlag(args[0]) then [Help(args[0])] + Tokenize(args[1..])
    else if IsVersionFlag(args[0]) then [Version(args[0])] + Tokenize(args[1..])
    else if IsDirFlag(args[0]) then
      if |args| > 1 then [Dir(args[0], args[1])] + Tokenize(args[2..])
      else [DanglingDir(args[0])]
    else [Ignored(args[0])] + Tokenize(args[1..])
  }

  /** The arguments a token stands for. */
  function Spelling(t: Token): seq<string> {
    match t
    case Help(f) => [f]
    case Version(f) => [f]
    case Dir(f, v) => [f, v]
    case DanglingDir(f) => [f]
    case Ignored(a) => [a]
  }

  ghost function Flatten(ts: seq<Token>): seq<string> {
    if ts == [] then [] else Spelling(ts[0]) + Flatten(ts[1..])
  }

  /** A token whose kind agrees with the flag it was made from. */
  ghost predicate Classified(t: Token) {
    match t
    case Help(f) => IsHelpFlag(f)
    case Version(f) => IsVersionFlag(f)
    case Dir(f, _) => IsDirFlag(f)
    case DanglingDir(f) => IsDirFlag(f)
    case Ignored(a) => !IsFlag(a)
  }

  /** Every token is classified and only the last one may be a dangling `--dir`. */
  ghost predicate WellFormedTokens(ts: seq<Token>) {
    && (forall k :: 0 <= k < |ts| ==> Classified(ts[k]))
    && (forall k :: 0 <= k < |ts| - 1 ==> !ts[k].DanglingDir?)
  }

  /** Tokenizing loses no argument and classifies every one of them. */
  lemma {:induction false} TokenizeRoundTrip(args: seq<string>)
    ensures Flatten(Tokenize(args)) == args
    ensures WellFormedTokens(Tokenize(args))
    decreases |args|
  {
    if args == [] {
    } else if IsHelpFlag(args[0]) || IsVersionFlag(args[0]) {
      TokenizeRoundTrip(args[1..]);
      assert args == [args[0]] + args[1..];
    } else if IsDirFlag(args[0]) {
      if |args| > 1 {
        TokenizeRoundTrip(args[2..]);
        assert args == [args[0], args[1]] + args[2..];
      } else {
        assert args == [args[0]];
      }
    } else {
      TokenizeRoundTrip(args[1..]);
      assert args == [args[0]] + args[1..];
    }
  }


  /** Tokenize is the only well-formed grouping of the arguments. */
  lemma {:induction false} TokenizeUnique(ts: seq<Token>)
    requires WellFormedTokens(ts)
    ensures Tokenize(Flatten(ts)) == ts
  {
    if ts != [] {
      var rest := ts[1..];
      assert WellFormedTokens(rest) by {
        forall k | 0 <= k < |rest| ensures Classified(rest[k]) { assert rest[k] == ts[k + 1]; }
        forall k | 0 <= k < |rest| - 1 ensures !rest[k].DanglingDir? { assert rest[k] == ts[k + 1]; }
      }
      TokenizeUnique(rest);
      var args := Flatten(ts);
      assert Classified(ts[0]);
      match ts[0]
      case Dir(f, v) =>
        assert args == [f, v] + Flatten(rest);
        assert args[2..] == Flatten(rest);
      case DanglingDir(f) =>
        assert |ts| == 1;
        assert args == [f];
      case _ =>
        assert args[1..] == Flatten(rest);
    }
  }

  lemma {:induction false} FlattenAppend(a: seq<Token>, b: seq<Token>)
    ensures Flatten(a + b) == Flatten(a) + Flatten(b)
  {
    if a == [] {
      assert a + b == b;
    } else {
      assert (a + b)[0] == a[0] && (a + b)[1..] == a[1..] + b;
      FlattenAppend(a[1..], b);
    }
  }

  /** The arguments end in a `--dir` still waiting for its value. */
  ghost predicate AwaitsDirValue(args: seq<string>) {
    var ts := Tokenize(args);
    ts != [] && ts[|ts| - 1].DanglingDir?
  }

  /** Unless a `--dir` is waiting for its value, the arguments spelling one more token tokenize to one more token. */
  lemma ExtendArgs(args: seq<string>, t: Token)
    requires Classified(t)
    requires !AwaitsDirValue(args)
    ensures Tokenize(args + Spelling(t)) == Tokenize(args) + [t]
  {
    var ts := Tokenize(args) + [t];
    TokenizeRoundTrip(args);
    assert WellFormedTokens(ts) by {
      forall k | 0 <= k < |ts| ensures Classified(ts[k]) {
        if k < |ts| - 1 { assert ts[k] == Tokenize(args)[k]; }
      }
      forall k | 0 <= k < |ts| - 1 ensures !ts[k].DanglingDir? {
        assert ts[k] == Tokenize(args)[k];
      }
    }
    FlattenAppend(Tokenize(args), [t]);
    assert Flatten([t]) == Spelling(t);
    TokenizeUnique(ts);
  }

  ghost predicate HasHelp(ts: seq<Token>) { exists k :: 0 <= k < |ts| && ts[k].Help? }
  ghost predicate HasVersion(ts: seq<Token>) { exists k :: 0 <= k < |ts| && ts[k].Version? }

  /** The value of the last `--dir` that had one, or the default. */
  ghost function LastDir(ts: seq<Token>): string {
    if ts == [] then DefaultDir
    else if ts[|ts| - 1].Dir? then ts[|ts| - 1].value
    else LastDir(ts[..|ts| - 1])
  }

  /** With no recognised flag among the arguments, every option keeps its default. */
  lemma {:induction false} NoFlagsKeepsDefaults(args: seq<string>)
    requires forall i :: 0 <= i < |args| ==> !IsFlag(args[i])
    ensures !HasHelp(Tokenize(args)) && !HasVersion(Tokenize(args))
    ensures LastDir(Tokenize(args)) == DefaultDir
    ensures Tokenize(args) == seq(|args|, i requires 0 <= i < |args| => Ignored(args[i]))
  {
    if args != [] {
      NoFlagsKeepsDefaults(args[1..]);
      var ts := Tokenize(args);
      assert ts == [Ignored(args[0])] + Tokenize(args[1..]);
      assert ts == seq(|args|, i requires 0 <= i < |args| => Ignored(args[i]));
      assert forall k :: 0 <= k < |ts| ==> ts[k].Ignored?;
      LastDirIgnoring(ts);
    }
  }

  /** LastDir of a sequence of Ignored tokens is the default. */
  lemma {:induction false} LastDirIgnoring(ts: seq<Token>)
    requires forall k :: 0 <= k < |ts| ==> ts[k].Ignored?
    ensures LastDir(ts) == DefaultDir
  {
    if ts != [] {
      LastDirIgnoring(ts[..|ts| - 1]);
    }
  }

  /**
   * parseArgs: starts from the defaults and walks the arguments once.
   * `--help`/`-h` and `--version`/`-v` set their flag wherever the loop reads
   * them as flags, that is, not as the value of a `--dir`;
   * the last `--dir`/`-d` that is followed by an argument gives the directory,
   * a trailing `--dir` changes nothing and anything else is ignored.
   */
  method ParseArgs(args: seq<string>) returns (opts: Options)
    ensures opts.help == HasHelp(Tokenize(args))
    ensures opts.version == HasVersion(Tokenize(args))
    ensures opts.i18nDir == LastDir(Tokenize(args))
  {
    opts := Options(DefaultDir, false, false);
    ghost var done: seq<Token> := [];
    var i := 0;
    while i < |args|
      invariant 0 <= i <= |args|
      invariant done + Tokenize(args[i..]) == Tokenize(args)
      invariant opts.help == HasHelp(done)
      invariant opts.version == HasVersion(done)
      invariant opts.i18nDir == LastDir(done)
    {
      var arg := args[i];
      ghost var t, next := Advance(args, done, i);
      if IsHelpFlag(arg) {
        opts := opts.(help := true);
      } else if IsVersionFlag(arg) {
        opts := opts.(version := true);
      } else if IsDirFlag(arg) {
        if i + 1 < |args| {
          opts := opts.(i18nDir := args[i + 1]);
          i := i + 1;  // skip the value
        }
      }
      done := done + [t];
      i := i + 1;
    }
    assert args[i..] == [];
    assert done == Tokenize(args);
  }

  /**
   * One iteration of the loop in ParseArgs: from index i, with the tokens
   * `done` already consumed, the loop consumes t and goes on from next; this
   * is how the three options change.
   */
  lemma Advance(args: seq<string>, done: seq<Token>, i: nat) returns (t: Token, next: nat)
    requires i < |args|
    requires done + Tokenize(args[i..]) == Tokenize(args)
    ensures next == if IsDirFlag(args[i]) && i + 1 < |args| then i + 2 else i + 1
    ensures (done + [t]) + Tokenize(args[next..]) == Tokenize(args)
    ensures HasHelp(done + [t]) == (HasHelp(done) || IsHelpFlag(args[i]))
    ensures HasVersion(done + [t]) == (HasVersion(done) || IsVersionFlag(args[i]))
    ensures LastDir(done + [t]) == if IsDirFlag(args[i]) && i + 1 < |args| then args[i + 1] else LastDir(done)
  {
    t, next := TokenizeAt(args, i);
    AppendToken(done, t);
    assert done + ([t] + Tokenize(args[next..])) == (done + [t]) + Tokenize(args[next..]);
  }

  /** One step of Tokenize, seen from index i of the arguments: the token t made there and the index after it. */
  lemma TokenizeAt(args: seq<string>, i: nat) returns (t: Token, next: nat)
    requires i < |args|
    ensures i < next <= |args|
    ensures Tokenize(args[i..]) == [t] + Tokenize(args[next..])
    ensures IsHelpFlag(args[i]) ==> t == Help(args[i]) && next == i + 1
    ensures !IsHelpFlag(args[i]) && IsVersionFlag(args[i]) ==> t == Version(args[i]) && next == i + 1
    ensures !IsHelpFlag(args[i]) && !IsVersionFlag(args[i]) && IsDirFlag(args[i]) && i + 1 < |args| ==>
              t == Dir(args[i], args[i + 1]) && next == i + 2
    ensures !IsHelpFlag(args[i]) && !IsVersionFlag(args[i]) && IsDirFlag(args[i]) && i + 1 == |args| ==>
              t == DanglingDir(args[i]) && next == i + 1
    ensures !IsFlag(args[i]) ==> t == Ignored(args[i]) && next == i + 1
  {
    var a, rest := args[i], args[i..];
    assert rest[0] == a;
    assert rest[1..] == args[i + 1..];
    if IsHelpFlag(a) {
      t, next := Help(a), i + 1;
    } else if IsVersionFlag(a) {
      t, next := Version(a), i + 1;
    } else if IsDirFlag(a) && i + 1 < |args| {
      assert rest[1] == args[i + 1];
      assert rest[2..] == args[i + 2..];
      t, next := Dir(a, args[i + 1]), i + 2;
    } else if IsDirFlag(a) {
      assert args[i + 1..] == [];
      t, next := DanglingDir(a), i + 1;
    } else {
      t, next := Ignored(a), i + 1;
    }
  }

  /** How the three summaries change when one more token is consumed. */
  lemma AppendToken(done: seq<Token>, t: Token)
    ensures HasHelp(done + [t]) == (HasHelp(done) || t.Help?)
    ensures HasVersion(done + [t]) == (HasVersion(done) || t.Version?)
    ensures LastDir(done + [t]) == if t.Dir? then t.value else LastDir(done)
  {
    var ts := done + [t];
    assert ts[..|ts| - 1] == done;
    assert ts[|done|] == t;
    if HasHelp(done) {
      var k :| 0 <= k < |done| && done[k].Help?;
      assert ts[k] == done[k];
    }
    if HasVersion(done) {
      var k :| 0 <= k < |done| && done[k].Version?;
      assert ts[k] == done[k];
    }
    if HasHelp(ts) && !t.Help? {
      var k :| 0 <= k < |ts| && ts[k].Help?;
      assert k < |done| && done[k] == ts[k];
    }
    if HasVersion(ts) && !t.Version? {
      var k :| 0 <= k < |ts| && ts[k].Version?;
      assert k < |done| && done[k] == ts[k];
    }
  }

  /**
   * `--dir v` after complete arguments makes v the directory; a `--dir` at
   * the very end leaves the directory as it was. Neither touches the other
   * options.
   */
  lemma DirFlagEffect(args: seq<string>, f: string, v: string)
    requires IsDirFlag(f)
    requires !AwaitsDirValue(args)
    ensures LastDir(Tokenize(args + [f, v])) == v
    ensures LastDir(Tokenize(args + [f])) == LastDir(Tokenize(args))
    ensures HasHelp(Tokenize(args + [f, v])) == HasHelp(Tokenize(args)) == HasHelp(Tokenize(args + [f]))
    ensures HasVersion(Tokenize(args + [f, v])) == HasVersion(Tokenize(args)) == HasVersion(Tokenize(args + [f]))
  {
    ExtendArgs(args, Dir(f, v));
    ExtendArgs(args, DanglingDir(f));
    AppendToken(Tokenize(args), Dir(f, v));
    AppendToken(Tokenize(args), DanglingDir(f));
  }
}
