/** Models of the C library string routines the shell uses: strtok_r
    (tokens separated by runs of delimiters) and the prefix test that
    strncmp performs when it is given the length of its second argument.
    The fields between single delimiters (empty ones kept, as strsep would
    return them) are the reference definition the strtok_r loops are
    measured against; the shell itself does not call strsep. C strings hold no NUL
    character, so a `string` here is the text before the terminator; a
    delimiter string is the set of its characters. */
module CString {
  import opened Wrappers

  /** No character of w is a delimiter. */
  predicate NoneIn(w: string, delims: set<char>)
  {
    forall i :: 0 <= i < |w| ==> w[i] !in delims
  }

  /** Every character of w is a delimiter. */
  predicate AllIn(w: string, delims: set<char>)
  {
    forall i :: 0 <= i < |w| ==> w[i] in delims
  }

  /** strncmp(s, p, strlen(p)) == 0: the first |p| characters of s are p. */
  predicate IsPrefix(p: string, s: string)
  {
    |p| <= |s| && s[..|p|] == p
  }

  /** The first index at or after i that does not hold a delimiter. */
  function SkipFrom(s: string, i: nat, delims: set<char>): (k: nat)
    requires i <= |s|
    ensures i <= k <= |s|
    ensures k < |s| ==> s[k] !in delims
    decreases |s| - i
  {
    if i < |s| && s[i] in delims then SkipFrom(s, i + 1, delims) else i
  }

  /** The first index at or after i that holds a delimiter (|s| if none). */
  function SpanFrom(s: string, i: nat, delims: set<char>): (k: nat)
    requires i <= |s|
    ensures i <= k <= |s|
    ensures k < |s| ==> s[k] in delims
    ensures forall j :: i <= j < k ==> s[j] !in delims
    decreases |s| - i
  {
    if i < |s| && s[i] !in delims then SpanFrom(s, i + 1, delims) else i
  }

  /** One call of strtok_r: the next token, and the text the save pointer
      is left at (just past the delimiter that strtok_r overwrites with NUL);
      None once only delimiters are left. */
  function NextToken(s: string, delims: set<char>): (r: Option<(string, string)>)
    ensures r.Some? ==> r.value.0 != [] && |r.value.1| < |s|
  {
    var b := SkipFrom(s, 0, delims);
    if b == |s| then None
    else
      var e := SpanFrom(s, b, delims);
      Some((s[b..e], if e < |s| then s[e + 1..] else []))
  }

  /** Every token successive strtok_r calls return on s, in order. */
  function Tokens(s: string, delims: set<char>): seq<string>
    decreases |s|
  {
    var next := NextToken(s, delims);
    if next.None? then [] else [next.value.0] + Tokens(next.value.1, delims)
  }

  /** The tokens strtok_r still has to return once one call has produced next. */
  function TokensAfter(next: Option<(string, string)>, delims: set<char>): seq<string>
  {
    if next.None? then [] else [next.value.0] + Tokens(next.value.1, delims)
  }

  /** Tokens(s) is what is left after the first strtok_r call on s. */
  lemma TokensStep(s: string, delims: set<char>)
    ensures Tokens(s, delims) == TokensAfter(NextToken(s, delims), delims)
  {
  }

  /** One more strtok_r call moves its token from what is left to what is done. */
  lemma TokensAfterStep(done: seq<string>, next: Option<(string, string)>, all: seq<string>, delims: set<char>)
    requires next.Some? && done + TokensAfter(next, delims) == all
    ensures (done + [next.value.0]) + TokensAfter(NextToken(next.value.1, delims), delims) == all
  {
    var tok, rest := next.value.0, next.value.1;
    var later := TokensAfter(NextToken(rest, delims), delims);
    assert Tokens(rest, delims) == later by { TokensStep(rest, delims); }
    assert TokensAfter(next, delims) == [tok] + later;
    assert (done + [tok]) + later == done + ([tok] + later);
  }

  /** The first field between delimiters, and the text after that
      delimiter (None when the string held no delimiter); one strsep call
      would return the same split. */
  function NextField(s: string, delims: set<char>): (r: (string, Option<string>))
    ensures r.1.Some? ==> |r.1.value| < |s|
  {
    var e := SpanFrom(s, 0, delims);
    if e < |s| then (s[..e], Some(s[e + 1..])) else (s, None)
  }

  /** Every field between single delimiters of s, empty ones included. */
  function Fields(s: string, delims: set<char>): seq<string>
    decreases |s|
  {
    var (f, rest) := NextField(s, delims);
    if rest.None? then [f] else [f] + Fields(rest.value, delims)
  }

  /** The words of ws with one sep character between neighbours. */
  function Join(ws: seq<string>, sep: char): string
  {
    if |ws| <= 1 then (if ws == [] then [] else ws[0])
    else ws[0] + [sep] + Join(ws[1..], sep)
  }

  /** Number of occurrences of c in s (what the counting loop computes). */
  function Count(s: string, c: char): (r: nat)
    ensures r <= |s|
  {
    if s == [] then 0 else Count(s[..|s| - 1], c) + (if s[|s| - 1] == c then 1 else 0)
  }

  /** The non-empty elements of fs, in order. */
  function NonEmpty(fs: seq<string>): (r: seq<string>)
    ensures |r| <= |fs|
  {
    if fs == [] then [] else (if fs[0] == [] then [] else [fs[0]]) + NonEmpty(fs[1..])
  }

  /** Filtering drops something exactly when some element is empty. */
  lemma {:induction false} NonEmptyKeepsAll(fs: seq<string>)
    ensures |NonEmpty(fs)| == |fs| <==> [] !in fs
    ensures [] !in fs ==> NonEmpty(fs) == fs
  {
    if fs != [] {
      NonEmptyKeepsAll(fs[1..]);
      assert fs == [fs[0]] + fs[1..];
      assert [] in fs[1..] ==> [] in fs;
    }
  }

  /** Every token is non-empty and holds no delimiter. */
  lemma {:induction false} TokensWellFormed(s: string, delims: set<char>)
    ensures forall k :: 0 <= k < |Tokens(s, delims)| ==>
              Tokens(s, delims)[k] != [] && NoneIn(Tokens(s, delims)[k], delims)
    decreases |s|
  {
    var next := NextToken(s, delims);
    if next.Some? {
      var b := SkipFrom(s, 0, delims);
      var e := SpanFrom(s, b, delims);
      assert forall j :: 0 <= j < e - b ==> next.value.0[j] == s[b + j];
      TokensWellFormed(next.value.1, delims);
    }
  }

  /** Every field holds no delimiter, and there is one more field than
      there are delimiters. */
  lemma {:induction false} FieldsCount(s: string, c: char)
    ensures |Fields(s, {c})| == Count(s, c) + 1
    ensures forall k :: 0 <= k < |Fields(s, {c})| ==> NoneIn(Fields(s, {c})[k], {c})
    decreases |s|
  {
    var e := SpanFrom(s, 0, {c});
    var fs := Fields(s, {c});
    if e < |s| {
      var tail := s[e + 1..];
      assert fs == [s[..e]] + Fields(tail, {c});
      assert Count(s, c) == Count(tail, c) + 1 by {
        CountAroundDelimiter(s, e, c);
      }
      FieldsCount(tail, c);
      assert forall k :: 0 < k < |fs| ==> fs[k] == Fields(tail, {c})[k - 1];
    } else {
      assert fs == [s];
      CountAbsent(s, c);
    }
  }

  /** A delimiter preceded by none adds one to the count of what follows it. */
  lemma CountAroundDelimiter(s: string, e: nat, c: char)
    requires e < |s| && s[e] == c && NoneIn(s[..e], {c})
    ensures Count(s, c) == Count(s[e + 1..], c) + 1
  {
    assert s == s[..e] + [c] + s[e + 1..];
    CountAbsent(s[..e], c);
    CountAppend(s[..e], [c], c);
    CountAppend(s[..e] + [c], s[e + 1..], c);
    assert Count([c], c) == 1 by {
      assert [c][..0] == [];
    }
  }

  lemma {:induction false} CountAppend(a: string, b: string, c: char)
    ensures Count(a + b, c) == Count(a, c) + Count(b, c)
    decreases |b|
  {
    if b == [] {
      assert a + b == a;
    } else {
      var b' := b[..|b| - 1];
      assert (a + b)[..|a + b| - 1] == a + b';
      CountAppend(a, b', c);
    }
  }

  lemma {:induction false} CountAbsent(s: string, c: char)
    requires NoneIn(s, {c})
    ensures Count(s, c) == 0
    decreases |s|
  {
    if s != [] {
      CountAbsent(s[..|s| - 1], c);
    }
  }

  /** Dropping the first character shifts both scans by one. */
  lemma {:induction false} ScanShift(u: string, t: string, i: nat, delims: set<char>)
    requires |u| == |t| + 1 && u[1..] == t && i <= |t|
    ensures SkipFrom(u, i + 1, delims) == SkipFrom(t, i, delims) + 1
    ensures SpanFrom(u, i + 1, delims) == SpanFrom(t, i, delims) + 1
    decreases |t| - i
  {
    if i < |t| {
      assert u[i + 1] == t[i];
      ScanShift(u, t, i + 1, delims);
    }
  }

  /** After a leading delimiter, both scans of strtok_r land one further on. */
  lemma ScansSkipDelimiter(u: string, s: string, delims: set<char>)
    requires |u| == |s| + 1 && u[1..] == s && u[0] in delims
    ensures SkipFrom(u, 0, delims) == SkipFrom(s, 0, delims) + 1
    ensures SkipFrom(s, 0, delims) < |s| ==>
      SpanFrom(u, SkipFrom(s, 0, delims) + 1, delims) == SpanFrom(s, SkipFrom(s, 0, delims), delims) + 1
  {
    ScanShift(u, s, 0, delims);
    if SkipFrom(s, 0, delims) < |s| {
      ScanShift(u, s, SkipFrom(s, 0, delims), delims);
    }
  }

  /** A leading delimiter never changes what strtok_r returns next. */
  lemma NextTokenSkipsDelimiter(d: char, s: string, delims: set<char>)
    requires d in delims
    ensures NextToken([d] + s, delims) == NextToken(s, delims)
  {
    var u := [d] + s;
    assert u[1..] == s;
    NextTokenOfShift(u, s, delims);
  }

  /** The same for any u whose tail after a delimiter is s. */
  lemma NextTokenOfShift(u: string, s: string, delims: set<char>)
    requires |u| == |s| + 1 && u[1..] == s && u[0] in delims
    ensures NextToken(u, delims) == NextToken(s, delims)
  {
    ScansSkipDelimiter(u, s, delims);
    var b := SkipFrom(s, 0, delims);
    if b < |s| {
      ShiftedToken(u, s, b, SpanFrom(s, b, delims), delims);
    }
  }

  /** The token case of NextTokenOfShift, with both scans already known. */
  lemma ShiftedToken(u: string, s: string, b: nat, e: nat, delims: set<char>)
    requires |u| == |s| + 1 && u[1..] == s
    requires b == SkipFrom(s, 0, delims) < |s| && e == SpanFrom(s, b, delims)
    requires SkipFrom(u, 0, delims) == b + 1 && SpanFrom(u, b + 1, delims) == e + 1
    ensures NextToken(u, delims) == NextToken(s, delims)
  {
    assert u[b + 1..e + 1] == s[b..e];
    if e < |s| {
      assert u[e + 2..] == s[e + 1..];
    }
  }

  /** Leading delimiters never change the tokens strtok_r returns. */
  lemma TokensSkipDelimiter(d: char, s: string, delims: set<char>)
    requires d in delims
    ensures Tokens([d] + s, delims) == Tokens(s, delims)
  {
    NextTokenSkipsDelimiter(d, s, delims);
    TokensStep([d] + s, delims);
    TokensStep(s, delims);
  }

  /** In w + [sep] + rest (or w alone), the first delimiter sits right after w. */
  lemma SpanOfHead(w: string, sep: char, rest: string, delims: set<char>, more: bool)
    requires sep in delims && NoneIn(w, delims)
    requires !more ==> rest == []
    ensures var s := if more then w + [sep] + rest else w;
      SpanFrom(s, 0, delims) == |w| && s[..|w|] == w
      && (more ==> |w| < |s| && s[|w| + 1..] == rest)
      && (!more ==> |w| == |s|)
  {
    var s := if more then w + [sep] + rest else w;
    assert forall i :: 0 <= i < |w| ==> s[i] == w[i];
    if more {
      assert s[|w|] == sep;
      assert s[|w| + 1..] == rest;
    }
  }

  /** Join(ws) starts with ws[0], followed by sep and the rest when there is more. */
  lemma JoinHead(ws: seq<string>, sep: char)
    requires ws != []
    ensures Join(ws, sep) == if |ws| == 1 then ws[0] else ws[0] + [sep] + Join(ws[1..], sep)
  {
  }

  /** The words Join(ws) starts with, and the text after the separator
      that follows it. */
  function JoinRest(ws: seq<string>, sep: char): string
    requires ws != []
  {
    if |ws| == 1 then [] else Join(ws[1..], sep)
  }

  /** strtok_r on Join(ws) first returns ws[0]. */
  lemma NextTokenOfJoin(ws: seq<string>, sep: char, delims: set<char>)
    requires sep in delims && ws != [] && ws[0] != [] && NoneIn(ws[0], delims)
    ensures NextToken(Join(ws, sep), delims) == Some((ws[0], JoinRest(ws, sep)))
  {
    var w := ws[0];
    var s := Join(ws, sep);
    JoinHead(ws, sep);
    SpanOfHead(w, sep, JoinRest(ws, sep), delims, |ws| > 1);
    assert s[0] == w[0];
    assert SkipFrom(s, 0, delims) == 0;
    assert s[0..|w|] == w;
  }

  /** strsep on Join(ws) first returns ws[0]. */
  lemma NextFieldOfJoin(ws: seq<string>, sep: char, delims: set<char>)
    requires sep in delims && ws != [] && NoneIn(ws[0], delims)
    ensures NextField(Join(ws, sep), delims) == (ws[0], if |ws| == 1 then None else Some(JoinRest(ws, sep)))
  {
    JoinHead(ws, sep);
    SpanOfHead(ws[0], sep, JoinRest(ws, sep), delims, |ws| > 1);
  }

  /** strtok_r inverts Join: words free of delimiters, separated by one
      delimiter, come back unchanged and in order. */
  lemma {:induction false} TokensOfJoin(ws: seq<string>, sep: char, delims: set<char>)
    requires sep in delims && [] !in ws
    requires forall k :: 0 <= k < |ws| ==> NoneIn(ws[k], delims)
    ensures Tokens(Join(ws, sep), delims) == ws
    decreases |ws|
  {
    if ws != [] {
      assert ws[0] in ws;
      NextTokenOfJoin(ws, sep, delims);
      TokensStep(Join(ws, sep), delims);
      if |ws| == 1 {
        assert Tokens([], delims) == [];
      } else {
        assert ws == [ws[0]] + ws[1..];
        TokensOfJoin(ws[1..], sep, delims);
      }
    }
  }

  /** strsep inverts Join when no word holds a delimiter (empty words included). */
  lemma {:induction false} FieldsOfJoin(ws: seq<string>, sep: char, delims: set<char>)
    requires sep in delims && |ws| >= 1
    requires forall k :: 0 <= k < |ws| ==> NoneIn(ws[k], delims)
    ensures Fields(Join(ws, sep), delims) == ws
    decreases |ws|
  {
    NextFieldOfJoin(ws, sep, delims);
    if |ws| > 1 {
      FieldsOfJoin(ws[1..], sep, delims);
    }
  }

  /** A leading delimiter ends an empty field and is skipped by strtok_r. */
  lemma LeadingDelimiter(s: string, delims: set<char>)
    requires s != [] && s[0] in delims
    ensures Fields(s, delims) == [[]] + Fields(s[1..], delims)
    ensures Tokens(s, delims) == Tokens(s[1..], delims)
  {
    assert [s[0]] + s[1..] == s;
    TokensSkipDelimiter(s[0], s[1..], delims);
    assert SpanFrom(s, 0, delims) == 0;
  }

  /** A leading word is both the first field and the first token. */
  lemma LeadingWord(s: string, delims: set<char>)
    requires s != [] && s[0] !in delims
    ensures var e := SpanFrom(s, 0, delims);
      0 < e
      && (e < |s| ==> Fields(s, delims) == [s[..e]] + Fields(s[e + 1..], delims)
                      && Tokens(s, delims) == [s[..e]] + Tokens(s[e + 1..], delims))
      && (e == |s| ==> Fields(s, delims) == [s] && Tokens(s, delims) == [s])
  {
    var e := SpanFrom(s, 0, delims);
    assert SkipFrom(s, 0, delims) == 0;
    assert s[0..e] == s[..e];
    if e == |s| {
      assert s[..e] == s;
      assert Tokens([], delims) == [];
    }
  }

  /** strtok_r returns exactly the non-empty fields between delimiters, in
      order, whatever the delimiter set: a run of delimiters only yields
      empty fields, which strtok_r skips. */
  lemma {:induction false} TokensAreNonEmptyFields(s: string, delims: set<char>)
    ensures Tokens(s, delims) == NonEmpty(Fields(s, delims))
    decreases |s|
  {
    if s == [] {
      assert Fields(s, delims) == [[]];
      assert NonEmpty(Fields(s, delims)) == [];
    } else if s[0] in delims {
      LeadingDelimiter(s, delims);
      var fs := Fields(s, delims);
      assert fs[0] == [] && fs[1..] == Fields(s[1..], delims);
      TokensAreNonEmptyFields(s[1..], delims);
    } else {
      LeadingWord(s, delims);
      var e := SpanFrom(s, 0, delims);
      var fs := Fields(s, delims);
      if e < |s| {
        assert fs[0] == s[..e] != [] && fs[1..] == Fields(s[e + 1..], delims);
        TokensAreNonEmptyFields(s[e + 1..], delims);
      } else {
        assert fs[0] == s != [] && fs[1..] == [];
      }
    }
  }

  /** A run of delimiters in front never changes the tokens. */
  lemma {:induction false} TokensSkipRun(gap: string, s: string, delims: set<char>)
    requires AllIn(gap, delims)
    ensures Tokens(gap + s, delims) == Tokens(s, delims)
    decreases |gap|
  {
    if gap == [] {
      assert gap + s == s;
    } else {
      assert gap + s == [gap[0]] + (gap[1..] + s);
      TokensSkipDelimiter(gap[0], gap[1..] + s, delims);
      TokensSkipRun(gap[1..], s, delims);
    }
  }

  /** strtok_r on a word followed by text that starts with a delimiter (or
      by nothing) returns the word. */
  lemma NextTokenOfWord(w: string, t: string, delims: set<char>)
    requires w != [] && NoneIn(w, delims)
    requires t == [] || t[0] in delims
    ensures NextToken(w + t, delims) == Some((w, if t == [] then [] else t[1..]))
  {
    var u := w + t;
    assert u[0] == w[0];
    assert SkipFrom(u, 0, delims) == 0;
    var e := SpanFrom(u, 0, delims);
    assert forall j :: 0 <= j < |w| ==> u[j] == w[j];
    assert e >= |w|;
    if t == [] {
      assert u[..e] == w;
    } else {
      assert u[|w|] == t[0];
      assert u[..e] == w;
      assert u[e + 1..] == t[1..];
    }
  }

  /** A word followed by a run of delimiters (or by nothing) is one token,
      and strtok_r resumes after the run. */
  lemma TokensAfterWord(w: string, gap: string, s: string, delims: set<char>)
    requires w != [] && NoneIn(w, delims)
    requires AllIn(gap, delims)
    requires gap != [] || s == []
    ensures Tokens(w + gap + s, delims) == [w] + Tokens(s, delims)
  {
    var t := gap + s;
    var rest: string := if t == [] then [] else t[1..];
    assert w + gap + s == w + t;
    assert Tokens(w + t, delims) == [w] + Tokens(rest, delims) by {
      assert t == [] || t[0] == gap[0];
      NextTokenOfWord(w, t, delims);
      TokensStep(w + t, delims);
    }
    assert Tokens(rest, delims) == Tokens(s, delims) by {
      if t != [] {
        assert rest == gap[1..] + s;
        TokensSkipRun(gap[1..], s, delims);
      }
    }
  }

  /** The words of ws, each followed by its run of delimiters gaps[k]. */
  function Lay(ws: seq<string>, gaps: seq<string>): string
    requires |gaps| == |ws|
  {
    if ws == [] then [] else ws[0] + gaps[0] + Lay(ws[1..], gaps[1..])
  }

  /** strtok_r recovers the words of any line made of delimiter-free words
      separated by non-empty runs of delimiters, with any such run in front
      and an optional one at the end: runs and mixtures of delimiters
      separate exactly like a single one. */
  lemma {:induction false} TokensOfLay(lead: string, ws: seq<string>, gaps: seq<string>, delims: set<char>)
    requires |gaps| == |ws| && [] !in ws && AllIn(lead, delims)
    requires forall k :: 0 <= k < |ws| ==> NoneIn(ws[k], delims) && AllIn(gaps[k], delims)
    requires forall k :: 0 <= k < |gaps| - 1 ==> gaps[k] != []
    ensures Tokens(lead + Lay(ws, gaps), delims) == ws
    decreases |ws|
  {
    if ws == [] {
      assert lead + Lay(ws, gaps) == lead + [];
      LaidWordThenRest(lead, [], [], [], ws, delims);
    } else {
      var w, g, later := ws[0], gaps[0], Lay(ws[1..], gaps[1..]);
      assert Tokens(later, delims) == ws[1..] by {
        LayTail(ws, gaps, delims);
        TokensOfLay([], ws[1..], gaps[1..], delims);
        assert [] + later == later;
      }
      assert w in ws && 0 < |ws|;
      assert NoneIn(w, delims) && AllIn(g, delims) && (g != [] || later == []);
      LaidWordThenRest(lead, w, g, later, ws[1..], delims);
      assert [w] + ws[1..] == ws;
    }
  }

  /** The inductive step of TokensOfLay: a run of delimiters, then a word,
      its run and the rest of the line, gives the word and then the tokens
      of the rest. */
  lemma LaidWordThenRest(lead: string, w: string, g: string, later: string, toks: seq<string>, delims: set<char>)
    requires AllIn(lead, delims)
    requires w == [] ==> g == [] && later == []
    requires w != [] ==> NoneIn(w, delims) && AllIn(g, delims) && (g != [] || later == [])
    requires Tokens(later, delims) == toks
    ensures Tokens(lead + (w + g + later), delims) == (if w == [] then [] else [w] + toks)
  {
    TokensSkipRun(lead, w + g + later, delims);
    if w == [] {
      assert w + g + later == [];
    } else {
      TokensAfterWord(w, g, later, delims);
    }
  }

  /** The hypotheses of TokensOfLay carry over from a layout to its tail. */
  lemma LayTail(ws: seq<string>, gaps: seq<string>, delims: set<char>)
    requires |gaps| == |ws| > 0 && [] !in ws
    requires forall k :: 0 <= k < |ws| ==> NoneIn(ws[k], delims) && AllIn(gaps[k], delims)
    requires forall k :: 0 <= k < |gaps| - 1 ==> gaps[k] != []
    ensures |gaps[1..]| == |ws[1..]| && [] !in ws[1..] && Lay(ws, gaps) == ws[0] + gaps[0] + Lay(ws[1..], gaps[1..])
    ensures forall k :: 0 <= k < |ws[1..]| ==> NoneIn(ws[1..][k], delims) && AllIn(gaps[1..][k], delims)
    ensures forall k :: 0 <= k < |gaps[1..]| - 1 ==> gaps[1..][k] != []
    ensures gaps[0] == [] ==> Lay(ws[1..], gaps[1..]) == []
  {
    assert [] in ws[1..] ==> [] in ws;
    assert forall k :: 0 <= k < |ws| - 1 ==> ws[1..][k] == ws[k + 1] && gaps[1..][k] == gaps[k + 1];
  }

  /** Hence strtok_r returns at most one token more than there are delimiters. */
  lemma TokensAtMostCountPlusOne(s: string, c: char)
    ensures |Tokens(s, {c})| <= Count(s, c) + 1
  {
    TokensAreNonEmptyFields(s, {c});
    FieldsCount(s, c);
  }
}
