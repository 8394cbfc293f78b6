/** parse_cmd and parse_cmd_piped of shell.c: a line becomes command
    records, with redirections taken out of argv and the background marker
    dropped from the argument count. MAX_ARGS and is_background are defined
    outside the model and enter as the parameters maxArgs and isBackground. */
module Parse {
  import opened Wrappers
  import opened CString
  import opened Commands

  /** The separators parse_cmd hands to strtok_r: space, tab, newline. */
  const Blanks: set<char> := {' ', '\t', '\n'}

  /** The stage separator. */
  const Bar: char := '|'

  /** What the compaction loop has built so far: the kept arguments and the
      current ifile/ofile. */
  datatype Scan = Scan(args: seq<string>, ifile: Option<string>, ofile: Option<string>)

  /** The state before the first argument is looked at (init_cmd leaves
      ifile and ofile NULL). */
  const Unredirected: Scan := Scan([], None, None)

  /** A token whose first character is a redirection operator. */
  predicate IsOp(t: string)
  {
    |t| > 0 && (t[0] == '<' || t[0] == '>')
  }

  /** An operator standing alone: its path is the next token. */
  predicate IsBareOp(t: string)
  {
    |t| == 1 && IsOp(t)
  }

  /** The first n elements of s, or all of s when it is shorter. */
  function Take<T>(s: seq<T>, n: nat): (r: seq<T>)
    ensures |r| == if |s| <= n then |s| else n
    ensures r == s[..|r|]
  {
    if |s| <= n then s else s[..n]
  }

  /** Taking at least as many as there are keeps everything. */
  lemma TakeOfShort<T>(s: seq<T>, n: nat)
    requires |s| <= n
    ensures Take(s, n) == s
  {
  }

  /** Records a redirection of direction op to path. */
  function Redirect(acc: Scan, op: char, path: string): Scan
  {
    if op == '<' then acc.(ifile := Some(path)) else acc.(ofile := Some(path))
  }

  /** The compaction loop of parse_cmd, one token at a time: ordinary tokens
      are kept, an operator records its path (glued, or the next token), and
      a missing or empty path is an error. */
  function Strip(toks: seq<string>, acc: Scan): Option<Scan>
    decreases |toks|
  {
    if toks == [] then Some(acc)
    else if !IsOp(toks[0]) then Strip(toks[1..], acc.(args := acc.args + [toks[0]]))
    else if IsBareOp(toks[0]) && |toks| == 1 then None
    else
      var t := toks[0];
      var path := if |t| > 1 then t[1..] else toks[1];
      var rest := if |t| > 1 then toks[1..] else toks[2..];
      if path == [] then None else Strip(rest, Redirect(acc, t[0], path))
  }

  /** The whole of parse_cmd on one line: tokenise (at most maxArgs tokens),
      strip redirections, then apply the background test. */
  function ParseSpec(line: string, maxArgs: nat, isBackground: seq<string> -> bool): Option<Command>
  {
    match Strip(Take(Tokens(line, Blanks), maxArgs), Unredirected)
    case None => None
    case Some(sc) =>
      var bg := isBackground(sc.args);
      Some(Command(sc.args, |sc.args| - (if bg then 1 else 0), sc.ifile, sc.ofile, bg, StdIn, StdOut))
  }

  /** parse_cmd: strtok_r fills argv, argv is compacted in place, then the
      background test may drop the last argument from the count. The
      descriptor slots of the new record are the standard ones (init_cmd is
      not part of this model). */
  method ParseCmd(line: string, maxArgs: nat, isBackground: seq<string> -> bool) returns (cmd: Option<Command>)
    ensures cmd == ParseSpec(line, maxArgs, isBackground)
  {
    // argv has room for MAX_ARGS tokens and the NULL terminator
    var argv := new string[maxArgs + 1](_ => "");
    var argc := FillArgv(line, argv);
    var ok, j, ifile, ofile := CompactArgv(argv, argc);
    if !ok {
      return None;
    }
    var args := argv[..j];
    var bg := isBackground(args);
    cmd := Some(Command(args, j as int - (if bg then 1 else 0), ifile, ofile, bg, StdIn, StdOut));
  }

  /** A prefix of all that is either everything or n long is Take(all, n). */
  lemma PrefixIsTake<T>(done: seq<T>, after: seq<T>, all: seq<T>, n: nat)
    requires done + after == all && |done| <= n && (after == [] || |done| == n)
    ensures done == Take(all, n)
  {
    assert all[..|done|] == done;
  }

  /** The strtok_r loop of parse_cmd: argv receives the tokens of line in
      order, and stops after argv.Length - 1 (MAX_ARGS) of them. */
  method FillArgv(line: string, argv: array<string>) returns (argc: nat)
    requires argv.Length >= 1
    modifies argv
    ensures argc <= argv.Length - 1
    ensures argv[..argc] == Take(Tokens(line, Blanks), argv.Length - 1)
    ensures argv[argc..] == old(argv[argc..])
  {
    var maxArgs := argv.Length - 1;
    argc := 0;
    var next := NextToken(line, Blanks);
    ghost var all := Tokens(line, Blanks);
    TokensStep(line, Blanks);
    while next.Some? && argc < maxArgs
      invariant argc <= maxArgs
      invariant argv[..argc] + TokensAfter(next, Blanks) == all
      invariant argv[argc..] == old(argv[argc..])
      decreases maxArgs - argc
    {
      TokensAfterStep(argv[..argc], next, all, Blanks);
      var token := next.value.0;
      argv[argc] := token;
      assert argv[..argc + 1] == argv[..argc] + [token];
      argc := argc + 1;
      next := NextToken(next.value.1, Blanks);
    }
    PrefixIsTake(argv[..argc], TokensAfter(next, Blanks), all, maxArgs);
  }

  /** The compaction loop of parse_cmd: the read index i walks argv[..argc],
      the write index j keeps the ordinary arguments at the front, and the
      last redirection of each direction is remembered. ok is false exactly
      when parse_cmd returns NULL. */
  method CompactArgv(argv: array<string>, argc: nat) returns (ok: bool, j: nat, ifile: Option<string>, ofile: Option<string>)
    requires argc <= argv.Length
    modifies argv
    ensures ok <==> Strip(old(argv[..argc]), Unredirected).Some?
    ensures ok ==> j <= argc && Strip(old(argv[..argc]), Unredirected) == Some(Scan(argv[..j], ifile, ofile))
    ensures j <= argv.Length && argv[j..] == old(argv[j..])
  {
    ghost var toks := argv[..argc];
    ghost var kept: seq<string> := [];
    var i := 0;
    j, ifile, ofile := 0, None, None;
    while i < argc
      invariant 0 <= j <= i <= argc && |kept| == j
      invariant argv[..j] == kept
      invariant argv[j..] == old(argv[j..])
      invariant forall k :: i <= k < argc ==> argv[k] == toks[k]
      invariant Strip(toks[i..], Scan(kept, ifile, ofile)) == Strip(toks, Unredirected)
    {
      var token := argv[i];
      if IsOp(token) {
        var path: Option<string>;
        if |token| == 1 {
          if i + 1 < argc {
            StripBare(toks, i, Scan(kept, ifile, ofile));
          } else {
            StripBareLast(toks, i, Scan(kept, ifile, ofile));
          }
          // argv[argc] is the NULL terminator
          path := if i + 1 < argc then Some(argv[i + 1]) else None;
          i := i + 1;
        } else {
          StripGlued(toks, i, Scan(kept, ifile, ofile));
          path := Some(token[1..]);
        }
        if path.None? || path.value == [] {
          assert Strip(toks, Unredirected) == None;
          return false, j, ifile, ofile;
        }
        if token[0] == '<' {
          ifile := path;
        } else {
          ofile := path;
        }
      } else {
        StripOrdinary(toks, i, Scan(kept, ifile, ofile));
        argv[j] := token;
        kept := kept + [token];
        assert argv[..j + 1] == kept;
        j := j + 1;
      }
      i := i + 1;
    }
    assert toks[argc..] == [];
    ok := true;
  }

  /** An ordinary token is appended to the kept arguments. */
  lemma StripOrdinary(toks: seq<string>, i: nat, acc: Scan)
    requires i < |toks| && !IsOp(toks[i])
    ensures Strip(toks[i..], acc) == Strip(toks[i + 1..], acc.(args := acc.args + [toks[i]]))
  {
    assert toks[i..][1..] == toks[i + 1..];
  }

  /** A glued operator records the rest of its token as the path. */
  lemma StripGlued(toks: seq<string>, i: nat, acc: Scan)
    requires i < |toks| && IsOp(toks[i]) && |toks[i]| > 1
    ensures Strip(toks[i..], acc) == Strip(toks[i + 1..], Redirect(acc, toks[i][0], toks[i][1..]))
  {
    assert toks[i..][1..] == toks[i + 1..];
  }

  /** A standalone operator takes the next token as its path; an empty one fails. */
  lemma StripBare(toks: seq<string>, i: nat, acc: Scan)
    requires i + 1 < |toks| && IsBareOp(toks[i])
    ensures toks[i + 1] == [] ==> Strip(toks[i..], acc) == None
    ensures toks[i + 1] != [] ==>
      Strip(toks[i..], acc) == Strip(toks[i + 2..], Redirect(acc, toks[i][0], toks[i + 1]))
  {
    assert toks[i..][2..] == toks[i + 2..];
  }

  /** A standalone operator as the last token fails. */
  lemma StripBareLast(toks: seq<string>, i: nat, acc: Scan)
    requires i + 1 == |toks| && IsBareOp(toks[i])
    ensures Strip(toks[i..], acc) == None
  {
  }
}

/* Reference definitions and the properties of parse_cmd. */
module ParseFacts {
  import opened Wrappers
  import opened CString
  import opened Commands
  import opened Parse

  /** Token k is taken as the path of a standalone operator at k - 1
      (which is itself not somebody's path). */
  predicate IsPath(toks: seq<string>, k: nat)
    requires k <= |toks|
  {
    k > 0 && IsBareOp(toks[k - 1]) && !IsPath(toks, k - 1)
  }

  /** The path of the operator token at k: the rest of the token when it is
      glued, otherwise the next token ([] when there is none). */
  function PathOf(toks: seq<string>, k: nat): string
    requires k < |toks| && IsOp(toks[k])
  {
    if |toks[k]| > 1 then toks[k][1..] else if k + 1 < |toks| then toks[k + 1] else []
  }

  /** The tokens from k on that stay in argv: neither an operator nor a path. */
  function KeptFrom(toks: seq<string>, k: nat): (r: seq<string>)
    requires k <= |toks|
    ensures |r| <= |toks| - k
    ensures forall i :: 0 <= i < |r| ==> !IsOp(r[i])
    decreases |toks| - k
  {
    if k == |toks| then []
    else (if !IsPath(toks, k) && !IsOp(toks[k]) then [toks[k]] else []) + KeptFrom(toks, k + 1)
  }

  /** The paths of the operators of direction d from k on, in order. */
  function PathsFrom(toks: seq<string>, k: nat, d: char): seq<string>
    requires k <= |toks|
    decreases |toks| - k
  {
    if k == |toks| then []
    else (if !IsPath(toks, k) && IsOp(toks[k]) && toks[k][0] == d then [PathOf(toks, k)] else [])
         + PathsFrom(toks, k + 1, d)
  }

  /** The last element of ps, or dflt when ps is empty. */
  function LastOr(ps: seq<string>, dflt: Option<string>): Option<string>
  {
    if ps == [] then dflt else Some(ps[|ps| - 1])
  }

  /** The operator at m has no path: it stands alone and is the last token,
      or the token after it is empty. */
  predicate Dangling(toks: seq<string>, m: nat)
    requires m < |toks|
  {
    !IsPath(toks, m) && IsBareOp(toks[m]) && (m + 1 == |toks| || toks[m + 1] == [])
  }

  /** The record the compaction loop should reach from k on, starting from acc. */
  function Expected(toks: seq<string>, k: nat, acc: Scan): Scan
    requires k <= |toks|
  {
    Scan(acc.args + KeptFrom(toks, k),
         LastOr(PathsFrom(toks, k, '<'), acc.ifile),
         LastOr(PathsFrom(toks, k, '>'), acc.ofile))
  }

  /** An ordinary token is appended to the kept arguments. */
  lemma ExpectedKeep(toks: seq<string>, k: nat, acc: Scan)
    requires k < |toks| && !IsPath(toks, k) && !IsOp(toks[k])
    ensures Expected(toks, k, acc) == Expected(toks, k + 1, acc.(args := acc.args + [toks[k]]))
  {
    var later := KeptFrom(toks, k + 1);
    assert KeptFrom(toks, k) == [toks[k]] + later;
    assert acc.args + ([toks[k]] + later) == (acc.args + [toks[k]]) + later;
    assert PathsFrom(toks, k, '<') == PathsFrom(toks, k + 1, '<');
    assert PathsFrom(toks, k, '>') == PathsFrom(toks, k + 1, '>');
  }

  /** An operator records its path; the scan goes on after the path. */
  lemma ExpectedRedirect(toks: seq<string>, k: nat, acc: Scan)
    requires k < |toks| && !IsPath(toks, k) && IsOp(toks[k])
    requires |toks[k]| > 1 || k + 1 < |toks|
    ensures var next := if |toks[k]| > 1 then k + 1 else k + 2;
      next <= |toks| && !IsPath(toks, next)
      && Expected(toks, k, acc) == Expected(toks, next, Redirect(acc, toks[k][0], PathOf(toks, k)))
  {
    var t := toks[k];
    var p := PathOf(toks, k);
    var next := if |t| > 1 then k + 1 else k + 2;
    if |t| == 1 {
      assert IsPath(toks, k + 1);
      assert KeptFrom(toks, k + 1) == KeptFrom(toks, k + 2);
      assert PathsFrom(toks, k + 1, '<') == PathsFrom(toks, k + 2, '<');
      assert PathsFrom(toks, k + 1, '>') == PathsFrom(toks, k + 2, '>');
    }
    assert KeptFrom(toks, k) == KeptFrom(toks, next);
    var o := if t[0] == '<' then '>' else '<';
    assert PathsFrom(toks, k, t[0]) == [p] + PathsFrom(toks, next, t[0]);
    assert PathsFrom(toks, k, o) == PathsFrom(toks, next, o);
    LastAfter(p, PathsFrom(toks, next, t[0]), if t[0] == '<' then acc.ifile else acc.ofile);
  }

  /** What the compaction loop produces: the kept tokens in order, and for
      each direction the path of its last operator (the one before k when
      there is none after it). */
  lemma {:induction false} StripResult(toks: seq<string>, k: nat, acc: Scan)
    requires k <= |toks| && !IsPath(toks, k)
    requires Strip(toks[k..], acc).Some?
    ensures Strip(toks[k..], acc) == Some(Expected(toks, k, acc))
    decreases |toks| - k
  {
    if k == |toks| {
      assert acc.args + [] == acc.args;
    } else {
      var t := toks[k];
      assert toks[k..][1..] == toks[k + 1..];
      if !IsOp(t) {
        ExpectedKeep(toks, k, acc);
        StripResult(toks, k + 1, acc.(args := acc.args + [t]));
      } else {
        if |t| == 1 {
          assert toks[k..][2..] == toks[k + 2..];
        }
        ExpectedRedirect(toks, k, acc);
        StripResult(toks, if |t| > 1 then k + 1 else k + 2, Redirect(acc, t[0], PathOf(toks, k)));
      }
    }
  }

  lemma LastAfter(p: string, ps: seq<string>, dflt: Option<string>)
    ensures LastOr([p] + ps, dflt) == LastOr(ps, Some(p))
  {
  }

  /** The compaction loop fails exactly when some operator has no path. */
  lemma {:induction false} StripFails(toks: seq<string>, k: nat, acc: Scan)
    requires k <= |toks| && !IsPath(toks, k)
    ensures Strip(toks[k..], acc).None? <==> exists m :: k <= m < |toks| && Dangling(toks, m)
    decreases |toks| - k
  {
    if k < |toks| {
      var t := toks[k];
      assert toks[k..][1..] == toks[k + 1..];
      if !IsOp(t) {
        StripFails(toks, k + 1, acc.(args := acc.args + [t]));
        NotDanglingHere(toks, k);
      } else if |t| > 1 {
        StripFails(toks, k + 1, Redirect(acc, t[0], t[1..]));
        NotDanglingHere(toks, k);
      } else if k + 1 == |toks| || toks[k + 1] == [] {
        assert Dangling(toks, k);
      } else {
        assert toks[k..][2..] == toks[k + 2..];
        StripFails(toks, k + 2, Redirect(acc, t[0], toks[k + 1]));
        NotDanglingHere(toks, k);
        assert !Dangling(toks, k + 1);
      }
    }
  }

  lemma NotDanglingHere(toks: seq<string>, k: nat)
    requires k < |toks| && !(IsBareOp(toks[k]) && (k + 1 == |toks| || toks[k + 1] == []))
    ensures !Dangling(toks, k)
  {
  }

  /** Once a prefix has been compacted without error, the rest is compacted
      from the state the prefix left. */
  lemma {:induction false} StripAppend(pre: seq<string>, post: seq<string>, acc: Scan)
    requires Strip(pre, acc).Some?
    ensures Strip(pre + post, acc) == Strip(post, Strip(pre, acc).value)
    decreases |pre|
  {
    if pre != [] {
      var t := pre[0];
      assert (pre + post)[1..] == pre[1..] + post;
      if !IsOp(t) {
        StripAppend(pre[1..], post, acc.(args := acc.args + [t]));
      } else if |t| > 1 {
        StripAppend(pre[1..], post, Redirect(acc, t[0], t[1..]));
      } else {
        assert (pre + post)[2..] == pre[2..] + post;
        StripAppend(pre[2..], post, Redirect(acc, t[0], pre[1]));
      }
    } else {
      assert pre + post == post;
    }
  }

  /** A glued operator ("<path", ">path") and the operator followed by the
      path as its own token leave the same argv, ifile and ofile. */
  lemma GluedIsStandalone(pre: seq<string>, op: char, path: string, post: seq<string>, acc: Scan)
    requires op == '<' || op == '>'
    requires path != []
    requires Strip(pre, acc).Some?
    ensures Strip(pre + [[op] + path] + post, acc) == Strip(pre + [[op], path] + post, acc)
  {
    var mid := Strip(pre, acc).value;
    assert pre + [[op] + path] + post == pre + ([[op] + path] + post);
    assert pre + [[op], path] + post == pre + ([[op], path] + post);
    StripAppend(pre, [[op] + path] + post, acc);
    StripAppend(pre, [[op], path] + post, acc);
    assert ([[op] + path] + post)[1..] == post;
    assert ([[op], path] + post)[2..] == post;
    assert ([op] + path)[1..] == path;
  }

  /** A standalone operator takes the next token as its path even when that
      token is itself an operator: "> >x" sends output to ">x". */
  lemma OperatorAsPath(op: char, path: string)
    requires op == '<' || op == '>'
    requires IsOp(path)
    ensures Strip([[op], path], Unredirected) == Some(Redirect(Unredirected, op, path))
  {
    assert [[op], path][2..] == [];
  }

  /** What parse_cmd computes, stated against its tokens: NULL exactly when
      some operator lacks a path; otherwise argv is the in-order kept
      tokens (at most MAX_ARGS of them, none an operator), each redirection
      is the last one of its direction, and the background marker takes one
      off argc while the NULL terminator stays at |argv|. */
  lemma ParseMeaning(line: string, maxArgs: nat, isBackground: seq<string> -> bool)
    ensures var toks := Take(Tokens(line, Blanks), maxArgs);
      var r := ParseSpec(line, maxArgs, isBackground);
      (r.None? <==> exists m :: 0 <= m < |toks| && Dangling(toks, m))
      && (r.Some? ==>
            r.value.argv == KeptFrom(toks, 0)
            && |r.value.argv| <= |toks| <= maxArgs
            && r.value.ifile == LastOr(PathsFrom(toks, 0, '<'), None)
            && r.value.ofile == LastOr(PathsFrom(toks, 0, '>'), None)
            && r.value.bg == isBackground(r.value.argv)
            && r.value.argc == |r.value.argv| - (if r.value.bg then 1 else 0)
            && r.value.fdIn == StdIn && r.value.fdOut == StdOut)
  {
    StripMeaning(Take(Tokens(line, Blanks), maxArgs));
  }

  /** The arguments parse_cmd reads are exactly the non-empty fields
      between blanks: a run or a mixture of blanks separates like one. */
  lemma ArgumentsAreBlankFields(line: string)
    ensures Tokens(line, Blanks) == NonEmpty(Fields(line, Blanks))
  {
    TokensAreNonEmptyFields(line, Blanks);
  }

  /** Without operators the compaction keeps every token. */
  lemma {:induction false} StripPlain(toks: seq<string>, acc: Scan)
    requires forall k :: 0 <= k < |toks| ==> !IsOp(toks[k])
    ensures Strip(toks, acc) == Some(acc.(args := acc.args + toks))
    decreases |toks|
  {
    if toks == [] {
      assert acc.args + toks == acc.args;
    } else {
      StripPlain(toks[1..], acc.(args := acc.args + [toks[0]]));
      assert (acc.args + [toks[0]]) + toks[1..] == acc.args + toks;
    }
  }

  /** A line of at most MAX_ARGS plain words, separated by any non-empty
      runs of blanks ("ls  -l", "ls\t-l x\n"), parses to exactly those
      words, with no redirection. */
  lemma PlainWordsParse(lead: string, ws: seq<string>, gaps: seq<string>, maxArgs: nat,
                        isBackground: seq<string> -> bool)
    requires |gaps| == |ws| <= maxArgs && [] !in ws && AllIn(lead, Blanks)
    requires forall k :: 0 <= k < |ws| ==> NoneIn(ws[k], Blanks) && AllIn(gaps[k], Blanks) && !IsOp(ws[k])
    requires forall k :: 0 <= k < |gaps| - 1 ==> gaps[k] != []
    ensures var bg := isBackground(ws);
      ParseSpec(lead + Lay(ws, gaps), maxArgs, isBackground)
        == Some(Command(ws, |ws| - (if bg then 1 else 0), None, None, bg, StdIn, StdOut))
  {
    TokensOfLay(lead, ws, gaps, Blanks);
    assert Take(ws, maxArgs) == ws;
    StripPlain(ws, Unredirected);
    assert [] + ws == ws;
  }

  /** A segment of blanks only, such as the "\n" after the last '|' of
      "ls |\n", parses to a command with an empty argv. */
  lemma BlankSegmentHasNoArgs(gap: string, maxArgs: nat, isBackground: seq<string> -> bool)
    requires AllIn(gap, Blanks)
    ensures ParseSpec(gap, maxArgs, isBackground).Some?
    ensures ParseSpec(gap, maxArgs, isBackground).value.argv == []
  {
    PlainWordsParse(gap, [], [], maxArgs, isBackground);
    assert gap + Lay([], []) == gap;
  }

  /** The compaction loop from the start: it fails exactly when some
      operator lacks a path, and otherwise yields the kept tokens and the
      last path of each direction. */
  lemma StripMeaning(toks: seq<string>)
    ensures Strip(toks, Unredirected).None? <==> exists m :: 0 <= m < |toks| && Dangling(toks, m)
    ensures Strip(toks, Unredirected).Some? ==>
      Strip(toks, Unredirected) == Some(Scan(KeptFrom(toks, 0),
                                             LastOr(PathsFrom(toks, 0, '<'), None),
                                             LastOr(PathsFrom(toks, 0, '>'), None)))
  {
    assert toks[0..] == toks;
    StripFails(toks, 0, Unredirected);
    if Strip(toks, Unredirected).Some? {
      StripResult(toks, 0, Unredirected);
      assert [] + KeptFrom(toks, 0) == KeptFrom(toks, 0);
    }
  }
}
