/** parse_cmd_piped of shell.c: the stage count comes from counting '|'
    characters, the stages from strtok_r on "|", each parsed by parse_cmd. */
module Piped {
  import opened Wrappers
  import opened CString
  import opened Commands
  import opened Parse

  /** parse_cmd applied to every segment: None as soon as one segment fails,
      otherwise one command per segment, in order. */
  function ParseAll(segs: seq<string>, maxArgs: nat, isBackground: seq<string> -> bool): (r: Option<seq<Command>>)
    ensures r.None? <==> exists i :: 0 <= i < |segs| && ParseSpec(segs[i], maxArgs, isBackground).None?
    ensures r.Some? ==> |r.value| == |segs|
    ensures r.Some? ==> forall i :: 0 <= i < |segs| ==> ParseSpec(segs[i], maxArgs, isBackground) == Some(r.value[i])
    decreases |segs|
  {
    if segs == [] then Some([])
    else
      match ParseSpec(segs[0], maxArgs, isBackground)
      case None => None
      case Some(c) =>
        match ParseAll(segs[1..], maxArgs, isBackground)
        case None => None
        case Some(cs) => Some([c] + cs)
  }

  /** Parsing one more segment extends the parsed prefix by one command. */
  lemma ParseAllSnoc(segs: seq<string>, s: string, cmds: seq<Command>, c: Command,
                     maxArgs: nat, isBackground: seq<string> -> bool)
    requires ParseAll(segs, maxArgs, isBackground) == Some(cmds)
    requires ParseSpec(s, maxArgs, isBackground) == Some(c)
    ensures ParseAll(segs + [s], maxArgs, isBackground) == Some(cmds + [c])
  {
    var all := segs + [s];
    assert forall i :: 0 <= i < |all| ==> all[i] == if i < |segs| then segs[i] else s;
    var r := ParseAll(all, maxArgs, isBackground);
    assert r.value == cmds + [c];
  }

  /** The counting loop of parse_cmd_piped: one stage more than there are
      '|' characters in the line. */
  method CountStages(line: string) returns (cnt: nat)
    ensures cnt == Count(line, Bar) + 1
  {
    cnt := 0;
    var i := 0;
    while i < |line|
      invariant i <= |line|
      invariant cnt == Count(line[..i], Bar)
    {
      if line[i] == Bar {
        cnt := cnt + 1;
      }
      assert line[..i + 1][..i] == line[..i];
      i := i + 1;
    }
    assert line[..|line|] == line;
    cnt := cnt + 1;
  }

  /** The strtok_r loop of parse_cmd_piped: at most cnt segments, each
      given to parse_cmd; NULL at the first segment that fails. */
  method ParseStages(line: string, cnt: nat, maxArgs: nat, isBackground: seq<string> -> bool)
    returns (cmds: Option<seq<Command>>)
    ensures cmds == ParseAll(Take(Tokens(line, {Bar}), cnt), maxArgs, isBackground)
  {
    var i := 0;
    var done: seq<Command> := [];
    var next := NextToken(line, {Bar});
    ghost var all := Tokens(line, {Bar});
    ghost var segs: seq<string> := [];
    TokensStep(line, {Bar});
    while next.Some? && i < cnt
      invariant i <= cnt && |segs| == i
      invariant segs + TokensAfter(next, {Bar}) == all
      invariant ParseAll(segs, maxArgs, isBackground) == Some(done)
      decreases cnt - i
    {
      var seg := next.value.0;
      TokensAfterStep(segs, next, all, {Bar});
      var c := ParseCmd(seg, maxArgs, isBackground);
      if c.None? {
        ghost var taken := Take(all, cnt);
        assert all[i] == seg;
        assert taken[i] == seg;
        return None;
      }
      ParseAllSnoc(segs, seg, done, c.value, maxArgs, isBackground);
      done := done + [c.value];
      segs := segs + [seg];
      i := i + 1;
      next := NextToken(next.value.1, {Bar});
    }
    PrefixIsTake(segs, TokensAfter(next, {Bar}), all, cnt);
    cmds := Some(done);
  }

  /** The segments the strtok_r loop of parse_cmd_piped hands to parse_cmd:
      the tokens at '|', at most cmd_cnt of them. */
  function Segments(line: string): (r: seq<string>)
    ensures |r| <= Count(line, Bar) + 1
  {
    Take(Tokens(line, {Bar}), Count(line, Bar) + 1)
  }

  /** parse_cmd_piped as written: the stages strtok_r finds, but cmd_count
      set to the number of '|' characters plus one. */
  function PipedAsWrittenSpec(line: string, maxArgs: nat, isBackground: seq<string> -> bool): (r: Option<Pipeline>)
    ensures r.Some? ==> |r.value.cmds| <= r.value.cmdCount == Count(line, Bar) + 1
  {
    AsWrittenPipeline(ParseAll(Segments(line), maxArgs, isBackground), Count(line, Bar) + 1)
  }

  /** The record as written: NULL when a stage failed, otherwise the stages
      with cmd_count as counted. */
  function AsWrittenPipeline(stages: Option<seq<Command>>, cnt: nat): (r: Option<Pipeline>)
    ensures r.None? <==> stages.None?
    ensures r.Some? ==> r.value.cmds == stages.value && r.value.cmdCount == cnt
  {
    if stages.None? then None else Some(Pipeline(stages.value, cnt))
  }

  method ParseCmdPipedAsWritten(line: string, maxArgs: nat, isBackground: seq<string> -> bool)
    returns (p: Option<Pipeline>)
    ensures p == PipedAsWrittenSpec(line, maxArgs, isBackground)
  {
    var cnt := CountStages(line);
    assert Take(Tokens(line, {Bar}), cnt) == Segments(line);
    var cmds := ParseStages(line, cnt, maxArgs, isBackground);
    if cmds.None? {
      return None;
    }
    p := Some(Pipeline(cmds.value, cnt));
  }

  /** parse_cmd_piped with cmd_count set to the number of stages stored;
      a line with no stage at all ("" or "|") gives NULL like a failed
      parse, so every pipeline returned has a first stage. */
  function PipedSpec(line: string, maxArgs: nat, isBackground: seq<string> -> bool): (r: Option<Pipeline>)
    ensures r.Some? ==> 1 <= r.value.cmdCount == |r.value.cmds| <= Count(line, Bar) + 1
  {
    CorrectedPipeline(ParseAll(Segments(line), maxArgs, isBackground))
  }

  /** The corrected record: NULL when a stage failed or none was found,
      otherwise the stages with cmd_count set to their number. */
  function CorrectedPipeline(stages: Option<seq<Command>>): (r: Option<Pipeline>)
    ensures r.None? <==> stages.None? || stages.value == []
    ensures r.Some? ==> r.value.cmds == stages.value && r.value.cmdCount == |stages.value|
  {
    if stages.None? || stages.value == [] then None else Some(Pipeline(stages.value, |stages.value|))
  }

  method ParseCmdPiped(line: string, maxArgs: nat, isBackground: seq<string> -> bool)
    returns (p: Option<Pipeline>)
    ensures p == PipedSpec(line, maxArgs, isBackground)
  {
    var cnt := CountStages(line);
    assert Take(Tokens(line, {Bar}), cnt) == Segments(line);
    var cmds := ParseStages(line, cnt, maxArgs, isBackground);
    if cmds.None? || cmds.value == [] {
      return None;
    }
    p := Some(Pipeline(cmds.value, |cmds.value|));
  }
}

/* Properties of parse_cmd_piped, and the stage-count discrepancy. */
module PipedFacts {
  import opened Wrappers
  import opened CString
  import opened Commands
  import opened Parse
  import opened Piped

  /** The segments strtok_r hands to parse_cmd are the non-empty fields
      between '|' characters; the cmd_cnt cap never cuts any off. */
  lemma SegmentsAreNonEmptyFields(line: string)
    ensures Segments(line) == NonEmpty(Fields(line, {Bar}))
  {
    var toks, fs, cap := Tokens(line, {Bar}), Fields(line, {Bar}), Count(line, Bar) + 1;
    assert |toks| <= cap by { TokensAtMostCountPlusOne(line, Bar); }
    assert toks == NonEmpty(fs) by { TokensAreNonEmptyFields(line, {Bar}); }
    CapKeepsAll(toks, fs, cap);
    assert Segments(line) == Take(toks, cap);
  }

  /** A cap no smaller than the filtered fields keeps all of them. */
  lemma CapKeepsAll(toks: seq<string>, fs: seq<string>, cap: nat)
    requires toks == NonEmpty(fs) && |toks| <= cap
    ensures Take(toks, cap) == NonEmpty(fs)
  {
    TakeOfShort(toks, cap);
  }

  /** The corrected parse_cmd_piped: NULL exactly when there is no
      non-empty segment or some segment fails to parse; otherwise one
      command per segment, in order, and cmd_count is the number of
      commands stored (at least one, and never more than the number of '|'
      characters plus one). */
  lemma PipedMeaning(line: string, maxArgs: nat, isBackground: seq<string> -> bool)
    ensures var segs := NonEmpty(Fields(line, {Bar}));
      var r := PipedSpec(line, maxArgs, isBackground);
      (r.None? <==> segs == [] || exists i :: 0 <= i < |segs| && ParseSpec(segs[i], maxArgs, isBackground).None?)
      && (r.Some? ==>
            1 <= r.value.cmdCount == |r.value.cmds| == |segs| <= Count(line, Bar) + 1
            && forall i :: 0 <= i < |segs| ==> ParseSpec(segs[i], maxArgs, isBackground) == Some(r.value.cmds[i]))
  {
    var segs := NonEmpty(Fields(line, {Bar}));
    var stages := ParseAll(segs, maxArgs, isBackground);
    assert Segments(line) == segs by {
      SegmentsAreNonEmptyFields(line);
    }
    assert PipedSpec(line, maxArgs, isBackground) == CorrectedPipeline(stages) by {
      CorrectedOfStages(line, maxArgs, isBackground, segs, stages);
    }
    assert |segs| <= Count(line, Bar) + 1 by { FieldsCount(line, Bar); }
  }

  /** parse_cmd_piped as written: cmd_count is always the number of '|'
      characters plus one, and it matches the number of commands stored
      exactly when no field between '|' characters is empty. */
  lemma AsWrittenCountMismatch(line: string, maxArgs: nat, isBackground: seq<string> -> bool)
    requires PipedAsWrittenSpec(line, maxArgs, isBackground).Some?
    ensures var p := PipedAsWrittenSpec(line, maxArgs, isBackground).value;
      var fs := Fields(line, {Bar});
      p.cmdCount == Count(line, Bar) + 1 == |fs|
      && |p.cmds| == |NonEmpty(fs)|
      && (|p.cmds| == p.cmdCount <==> [] !in fs)
  {
    SegmentsAreNonEmptyFields(line);
    FieldsCount(line, Bar);
    NonEmptyKeepsAll(Fields(line, {Bar}));
  }

  /** Without empty fields between '|' characters the code as written and
      the corrected one agree. */
  lemma AsWrittenAgreesWithoutEmptyStages(line: string, maxArgs: nat, isBackground: seq<string> -> bool)
    requires [] !in Fields(line, {Bar})
    ensures PipedAsWrittenSpec(line, maxArgs, isBackground) == PipedSpec(line, maxArgs, isBackground)
  {
    var fs := Fields(line, {Bar});
    var cnt := Count(line, Bar) + 1;
    var segs := Segments(line);
    assert segs == NonEmpty(fs) by {
      SegmentsAreNonEmptyFields(line);
    }
    assert |fs| == cnt by {
      FieldsCount(line, Bar);
    }
    assert |NonEmpty(fs)| == |fs| by {
      NonEmptyKeepsAll(fs);
    }
    var stages := ParseAll(segs, maxArgs, isBackground);
    assert stages.Some? ==> |stages.value| == cnt by {
      ParseAllLength(segs, maxArgs, isBackground, stages);
    }
    assert PipedAsWrittenSpec(line, maxArgs, isBackground) == AsWrittenPipeline(stages, cnt);
    CorrectedOfStages(line, maxArgs, isBackground, segs, stages);
  }

  /** The corrected parse_cmd_piped, unfolded over the parsed stages. */
  lemma CorrectedOfStages(line: string, maxArgs: nat, isBackground: seq<string> -> bool,
                          segs: seq<string>, stages: Option<seq<Command>>)
    requires Segments(line) == segs
    requires ParseAll(segs, maxArgs, isBackground) == stages
    ensures PipedSpec(line, maxArgs, isBackground) == CorrectedPipeline(stages)
  {
  }

  /** A successful ParseAll has one command per segment. */
  lemma ParseAllLength(segs: seq<string>, maxArgs: nat, isBackground: seq<string> -> bool, stages: Option<seq<Command>>)
    requires ParseAll(segs, maxArgs, isBackground) == stages
    ensures stages.Some? ==> |stages.value| == |segs|
  {
  }

  /** Lines with no stage at all, "" and "|": as written cmd_count is 1 and
      2 while no command is stored, so exec_cmd_piped reads a cmds[0] that
      was never stored. */
  lemma AsWrittenNoStageExample(maxArgs: nat, isBackground: seq<string> -> bool)
    ensures PipedAsWrittenSpec([], maxArgs, isBackground) == Some(Pipeline([], 1))
    ensures PipedAsWrittenSpec([Bar], maxArgs, isBackground) == Some(Pipeline([], 2))
  {
    assert Tokens([], {Bar}) == [];
    assert Tokens([Bar], {Bar}) == [] by {
      TokensSkipDelimiter(Bar, [], {Bar});
      assert [Bar] + [] == [Bar];
    }
    assert Count([Bar], Bar) == 1 by {
      assert [Bar][..0] == [];
    }
  }

  /** The same lines under the corrected definition: NULL, no pipeline. */
  lemma CorrectedNoStageExample(maxArgs: nat, isBackground: seq<string> -> bool)
    ensures PipedSpec([], maxArgs, isBackground) == None
    ensures PipedSpec([Bar], maxArgs, isBackground) == None
  {
    assert Tokens([], {Bar}) == [];
    assert Tokens([Bar], {Bar}) == [] by {
      TokensSkipDelimiter(Bar, [], {Bar});
      assert [Bar] + [] == [Bar];
    }
  }

  /** Commands free of '|' joined by '|' come back as the stages, one each. */
  lemma PipedOfJoin(segs: seq<string>, maxArgs: nat, isBackground: seq<string> -> bool)
    requires [] !in segs
    requires forall i :: 0 <= i < |segs| ==> Bar !in segs[i]
    ensures var r := PipedSpec(Join(segs, Bar), maxArgs, isBackground);
      r.None? <==> segs == [] || exists i :: 0 <= i < |segs| && ParseSpec(segs[i], maxArgs, isBackground).None?
    ensures var r := PipedSpec(Join(segs, Bar), maxArgs, isBackground);
      r.Some? ==> (r.value.cmdCount == |r.value.cmds| == |segs|
                   && forall i :: 0 <= i < |segs| ==> ParseSpec(segs[i], maxArgs, isBackground) == Some(r.value.cmds[i]))
  {
    var line := Join(segs, Bar);
    forall i | 0 <= i < |segs|
      ensures NoneIn(segs[i], {Bar})
    {
      assert forall j :: 0 <= j < |segs[i]| ==> segs[i][j] in segs[i];
    }
    if segs == [] {
      assert Tokens(line, {Bar}) == [];
    } else {
      FieldsOfJoin(segs, Bar, {Bar});
      NonEmptyKeepsAll(segs);
    }
    PipedMeaning(line, maxArgs, isBackground);
  }

  /** A line "a||b" with two words a and b: strtok_r finds two stages
      while cmd_count is 3, so exec_cmd_piped reads a third command that
      was never stored. */
  lemma AsWrittenStageCountExample(a: string, b: string, maxArgs: nat, isBackground: seq<string> -> bool)
    requires maxArgs >= 1
    requires a != [] && NoneIn(a, Blanks + {Bar}) && !IsOp(a)
    requires b != [] && NoneIn(b, Blanks + {Bar}) && !IsOp(b)
    ensures PipedAsWrittenSpec(a + [Bar, Bar] + b, maxArgs, isBackground).Some?
    ensures |PipedAsWrittenSpec(a + [Bar, Bar] + b, maxArgs, isBackground).value.cmds| == 2
    ensures PipedAsWrittenSpec(a + [Bar, Bar] + b, maxArgs, isBackground).value.cmdCount == 3
  {
    TwoWordLine(a, b, maxArgs, isBackground);
  }

  /** The same line under the corrected count: two stages, cmd_count 2. */
  lemma CorrectedStageCountExample(a: string, b: string, maxArgs: nat, isBackground: seq<string> -> bool)
    requires maxArgs >= 1
    requires a != [] && NoneIn(a, Blanks + {Bar}) && !IsOp(a)
    requires b != [] && NoneIn(b, Blanks + {Bar}) && !IsOp(b)
    ensures PipedSpec(a + [Bar, Bar] + b, maxArgs, isBackground).Some?
    ensures |PipedSpec(a + [Bar, Bar] + b, maxArgs, isBackground).value.cmds| == 2
    ensures PipedSpec(a + [Bar, Bar] + b, maxArgs, isBackground).value.cmdCount == 2
  {
    TwoWordLine(a, b, maxArgs, isBackground);
  }

  /** The segments of "a||b", its '|' count, and that both words parse. */
  lemma TwoWordLine(a: string, b: string, maxArgs: nat, isBackground: seq<string> -> bool)
    requires maxArgs >= 1
    requires a != [] && NoneIn(a, Blanks + {Bar}) && !IsOp(a)
    requires b != [] && NoneIn(b, Blanks + {Bar}) && !IsOp(b)
    ensures Count(a + [Bar, Bar] + b, Bar) + 1 == 3
    ensures Segments(a + [Bar, Bar] + b) == [a, b]
    ensures ParseAll([a, b], maxArgs, isBackground).Some?
  {
    NoneInSubset(a, Blanks + {Bar}, {Bar});
    NoneInSubset(b, Blanks + {Bar}, {Bar});
    TwoWordSegments(a, b);
    NoneInSubset(a, Blanks + {Bar}, Blanks);
    NoneInSubset(b, Blanks + {Bar}, Blanks);
    TwoWordsParse(a, b, maxArgs, isBackground);
  }

  /** "a||b" has the '|'-fields a, "" and b, hence the segments a and b. */
  lemma TwoWordSegments(a: string, b: string)
    requires a != [] && NoneIn(a, {Bar})
    requires b != [] && NoneIn(b, {Bar})
    ensures Count(a + [Bar, Bar] + b, Bar) + 1 == 3
    ensures Segments(a + [Bar, Bar] + b) == [a, b]
  {
    var fs := [a, [], b];
    JoinOfTwoWords(a, b);
    assert forall k :: 0 <= k < |fs| ==> NoneIn(fs[k], {Bar});
    FieldsOfJoin(fs, Bar, {Bar});
    SegmentsOfFields(a + [Bar, Bar] + b, fs);
    NonEmptyOfTwoWords(a, b);
  }

  /** "a||b" is a, "" and b joined by '|'. */
  lemma JoinOfTwoWords(a: string, b: string)
    ensures Join([a, [], b], Bar) == a + [Bar, Bar] + b
  {
    var fs := [a, [], b];
    assert Join(fs[1..], Bar) == [] + [Bar] + b;
  }

  /** Dropping the empty middle field leaves a and b. */
  lemma NonEmptyOfTwoWords(a: string, b: string)
    requires a != [] && b != []
    ensures NonEmpty([a, [], b]) == [a, b]
  {
    var fs := [a, [], b];
    assert NonEmpty(fs[1..]) == NonEmpty(fs[2..]);
  }

  /** Once the '|'-fields of a line are known, so are its count and its
      segments. */
  lemma SegmentsOfFields(line: string, fs: seq<string>)
    requires Fields(line, {Bar}) == fs
    ensures Count(line, Bar) + 1 == |fs| && Segments(line) == NonEmpty(fs)
  {
    FieldsCount(line, Bar);
    SegmentsAreNonEmptyFields(line);
  }

  /** Two single words, free of blanks and not operators, both parse. */
  lemma TwoWordsParse(a: string, b: string, maxArgs: nat, isBackground: seq<string> -> bool)
    requires maxArgs >= 1
    requires a != [] && NoneIn(a, Blanks) && !IsOp(a)
    requires b != [] && NoneIn(b, Blanks) && !IsOp(b)
    ensures ParseAll([a, b], maxArgs, isBackground).Some?
  {
    OneWordParses(a, maxArgs, isBackground);
    OneWordParses(b, maxArgs, isBackground);
  }

  lemma NoneInSubset(w: string, big: set<char>, small: set<char>)
    requires NoneIn(w, big) && small <= big
    ensures NoneIn(w, small)
  {
  }

  /** A single word without blanks or a leading operator parses to a command. */
  lemma OneWordParses(w: string, maxArgs: nat, isBackground: seq<string> -> bool)
    requires maxArgs >= 1 && w != [] && NoneIn(w, Blanks) && !IsOp(w)
    ensures ParseSpec(w, maxArgs, isBackground).Some?
  {
    assert Tokens(w, Blanks) == [w] by {
      assert Join([w], ' ') == w;
      TokensOfJoin([w], ' ', Blanks);
    }
    assert Take([w], maxArgs) == [w];
    assert Strip([w], Unredirected).Some? by {
      assert [w][1..] == [];
      assert Strip([w], Unredirected) == Strip([], Scan(Unredirected.args + [w], None, None));
    }
  }
}
