/** The text logic of a room card: the floor label, the parser of the directions mini-format
    held in a record's description, and the texts the copy buttons put on the clipboard.

    In a description, `||` (with the white space around it) separates the steps of one route
    and a single `|` separates alternative routes ("options"). */
module RoomCard {
  import opened Wrappers
  import opened JsArray
  import opened JsString

  /** The floor as shown on the card. */
  function FloorLabel(floor: string): (shown: string)
    ensures shown == "Ground" <==> floor == "0"
    ensures floor != "0" ==> |shown| == 6 + |floor| && shown[..6] == "Floor " && shown[6..] == floor
  {
    if floor == "0" then "Ground"
    else
      var shown := "Floor " + floor;
      assert shown[0] != "Ground"[0];
      shown
  }

  /** Different floors get different labels. */
  lemma FloorLabelInjective(a: string, b: string)
    requires FloorLabel(a) == FloorLabel(b)
    ensures a == b
  {
    if a != "0" && b != "0" {
      assert a == FloorLabel(a)[6..];
    }
  }

  // ---------------------------------------------------------------------------------------
  // The directions parser

  /** The marker step separators are rewritten to before options are split apart. */
  const Placeholder: NonEmptyString := "\U{A7}\U{A7}STEPSEP\U{A7}\U{A7}"

  predicate NonBlank(s: string)
  {
    s != ""
  }

  predicate HasSteps(steps: seq<string>)
  {
    steps != []
  }

  /** Replacing the placeholder by itself: the no-op rewrite applied to every option string. */
  function RestorePlaceholder(s: string): (r: string)
    ensures r == s
  {
    ReplaceLiteralBySelf(s, Placeholder);
    ReplaceAll(s, Literal(Placeholder), Placeholder)
  }

  /** The option strings of a description whose step separators are already placeholders:
      split on single pipes, trimmed, blanks dropped. */
  function OptionStrings(normalized: string): (options: seq<string>)
    ensures forall o :: o in options ==> o != "" && IsTrimmed(o)
  {
    Filter(NonBlank, Map(Trim, Map(RestorePlaceholder, Split(normalized, PipeRun(1)))))
  }

  /** The steps of one option string: split on the placeholder, trimmed, blanks dropped. */
  function Steps(option: string): (steps: seq<string>)
    ensures forall st :: st in steps ==> st != "" && IsTrimmed(st)
  {
    Filter(NonBlank, Map(Trim, Split(option, Literal(Placeholder))))
  }

  /** Well-formed directions: at least one step in every option, and every step non-blank and
      trimmed. */
  predicate WellFormed(dirs: seq<seq<string>>)
  {
    forall o :: o in dirs ==> o != [] && forall st :: st in o ==> st != "" && IsTrimmed(st)
  }

  /** The directions of a description: its options, each a list of steps. */
  function ParseDirections(description: string): (dirs: seq<seq<string>>)
    ensures WellFormed(dirs)
    ensures AllSpace(description) ==> dirs == []
  {
    if Trim(description) == "" then []
    else
      var normalized := ReplaceAll(description, PipeRun(2), Placeholder);
      Filter(HasSteps, Map(Steps, OptionStrings(normalized)))
  }

  // ---------------------------------------------------------------------------------------
  // Writing directions down: the inverse of the parser

  /** A text fit to be one step of written-down directions: non-blank, trimmed, without a pipe
      and without the placeholder's first character. */
  predicate PlainStep(t: string)
  {
    PipeFree(t) && Placeholder[0] !in t
  }

  /** A step list fit to be written down: at least one step, every step plain. */
  predicate GoodSteps(steps: seq<string>)
  {
    steps != [] && forall st :: st in steps ==> PlainStep(st)
  }

  /** Directions that can be written down and read back: every option a good step list. */
  predicate Writable(dirs: seq<seq<string>>)
  {
    forall o :: o in dirs ==> GoodSteps(o)
  }

  /** How directions are written down: the white space before the first step and after the
      last, the `||` between two steps and the `|` between two options, each with the white
      space around it. */
  datatype Layout = Layout(lead: string, step: Separator, option: Separator, trail: string)
  {
    predicate Valid()
    {
      && AllSpace(lead) && AllSpace(trail)
      && step.Padded() && step.pipes == 2
      && option.Padded() && option.pipes == 1
    }
  }

  /** One space on each side of every separator. */
  const Spaced: Layout := Layout("", Separator(" ", 2, " "), Separator(" ", 1, " "), "")

  /** No white space anywhere. */
  const Tight: Layout := Layout("", Separator("", 2, ""), Separator("", 1, ""), "")

  /** The description text of one option: its steps separated by the step separator. */
  function RenderOption(steps: seq<string>, layout: Layout): string
  {
    Join(steps, layout.step.Text())
  }

  function RenderOptions(dirs: seq<seq<string>>, layout: Layout): (texts: seq<string>)
    ensures |texts| == |dirs|
  {
    seq(|dirs|, k requires 0 <= k < |dirs| => RenderOption(dirs[k], layout))
  }

  /** The options written down, separated by the option separator. */
  function RenderBody(dirs: seq<seq<string>>, layout: Layout): string
  {
    Join(RenderOptions(dirs, layout), layout.option.Text())
  }

  /** The description text of some directions. */
  function Render(dirs: seq<seq<string>>, layout: Layout): string
  {
    layout.lead + RenderBody(dirs, layout) + layout.trail
  }

  lemma RenderOptionsCons(o: seq<string>, tail: seq<seq<string>>, layout: Layout)
    ensures RenderOptions([o] + tail, layout) == [RenderOption(o, layout)] + RenderOptions(tail, layout)
  {
  }

  lemma RenderSingle(o: seq<string>, layout: Layout)
    ensures Render([o], layout) == layout.lead + RenderOption(o, layout) + layout.trail
  {
    assert RenderOptions([o], layout) == [RenderOption(o, layout)];
  }

  /** Written-down directions start with the first character of their first step. */
  lemma RenderBodyStart(dirs: seq<seq<string>>, layout: Layout)
    requires dirs != [] && GoodSteps(dirs[0])
    ensures var body := RenderBody(dirs, layout);
            body != [] && !IsSpace(body[0]) && body[0] != '|'
  {
    var o := dirs[0];
    assert o[0] in o;
    JoinFirstChar(o, layout.step.Text());
    JoinFirstChar(RenderOptions(dirs, layout), layout.option.Text());
  }

  /** An option with its step separators already replaced by the placeholder. */
  function JoinSteps(steps: seq<string>): (text: string)
  {
    Join(steps, Placeholder)
  }

  /** The placeholder-joined text of good steps is non-empty, trimmed and has no pipe. */
  lemma JoinStepsShape(steps: seq<string>)
    requires GoodSteps(steps)
    ensures PipeFree(JoinSteps(steps))
  {
    var t := JoinSteps(steps);
    var first := steps[0];
    var last := steps[|steps| - 1];
    assert first in steps && last in steps;
    JoinStartsWith(steps, Placeholder);
    JoinEndsWith(steps, Placeholder);
    assert t[0] == t[..|first|][0] == first[0];
    assert t[|t| - 1] == t[|t| - |last|..][|last| - 1] == last[|last| - 1];
    JoinAvoids(steps, Placeholder, '|');
  }

  /** The steps of a good step list joined by the placeholder are the steps themselves. */
  lemma StepsOfJoined(steps: seq<string>)
    requires GoodSteps(steps)
    ensures Steps(JoinSteps(steps)) == steps
  {
    SplitJoinLiteral(steps, Placeholder);
    forall k | 0 <= k < |steps| ensures Trim(steps[k]) == steps[k] {
      assert steps[k] in steps;
      TrimOfTrimmed(steps[k]);
    }
    assert Map(Trim, steps) == steps;
    FilterKeepsAll(NonBlank, steps);
  }

  /** The step of StepSeparatorsReplaced that puts one more option in front. */
  lemma StepSeparatorsReplacedCons(o: seq<string>, tail: seq<seq<string>>, layout: Layout, b: string)
    requires layout.Valid() && GoodSteps(o) && tail != [] && GoodSteps(tail[0])
    requires ReplaceAll(RenderBody(tail, layout) + b, PipeRun(2), Placeholder)
             == Join(Map(JoinSteps, tail), layout.option.Text()) + ReplaceAll(b, PipeRun(2), Placeholder)
    ensures ReplaceAll(RenderBody([o] + tail, layout) + b, PipeRun(2), Placeholder)
            == Join(Map(JoinSteps, [o] + tail), layout.option.Text()) + ReplaceAll(b, PipeRun(2), Placeholder)
  {
    var dirs := [o] + tail;
    var sep := layout.option.Text();
    var rest := RenderBody(tail, layout);
    var done := Join(Map(JoinSteps, tail), sep);
    var after := ReplaceAll(b, PipeRun(2), Placeholder);
    assert dirs[1..] == tail;
    RenderOptionsCons(o, tail, layout);
    MapCons(JoinSteps, dirs);
    JoinCons(RenderOption(o, layout), RenderOptions(tail, layout), sep);
    JoinCons(JoinSteps(o), Map(JoinSteps, tail), sep);
    RenderBodyStart(tail, layout);
    Regroup(RenderOption(o, layout), sep, rest, b);
    ReplaceJoinSeparated(o, layout.step, Placeholder, sep + (rest + b));
    LonePipeNoDouble(layout.option, rest + b);
    ReplaceNoMatchPrefix(sep, rest + b, PipeRun(2), Placeholder);
    Regroup(JoinSteps(o), sep, done, after);
  }

  /** Replacing the step separators of written-down options gives the placeholder-joined
      options, still separated by the option separator, whatever follows them. */
  lemma {:induction false} StepSeparatorsReplaced(dirs: seq<seq<string>>, layout: Layout, b: string)
    requires layout.Valid() && dirs != [] && Writable(dirs)
    ensures ReplaceAll(RenderBody(dirs, layout) + b, PipeRun(2), Placeholder)
            == Join(Map(JoinSteps, dirs), layout.option.Text()) + ReplaceAll(b, PipeRun(2), Placeholder)
    decreases |dirs|
  {
    var o := dirs[0];
    assert o in dirs;
    if |dirs| == 1 {
      assert RenderOptions(dirs, layout) == [RenderOption(o, layout)];
      ReplaceJoinSeparated(o, layout.step, Placeholder, b);
    } else {
      var tail := dirs[1..];
      TailMembers(dirs);
      assert tail[0] in tail;
      StepSeparatorsReplaced(tail, layout, b);
      StepSeparatorsReplacedCons(o, tail, layout, b);
      assert dirs == [o] + tail;
    }
  }

  /** The first stage of the parser on written-down directions: the step separators become
      placeholders, and the rest of the text is left alone. */
  lemma NormalizedRender(dirs: seq<seq<string>>, layout: Layout)
    requires layout.Valid() && dirs != [] && Writable(dirs)
    ensures ReplaceAll(Render(dirs, layout), PipeRun(2), Placeholder)
            == layout.lead + Join(Map(JoinSteps, dirs), layout.option.Text()) + layout.trail
  {
    var body := RenderBody(dirs, layout);
    assert dirs[0] in dirs;
    RenderBodyStart(dirs, layout);
    assert Render(dirs, layout) == layout.lead + (body + layout.trail);
    NoPipeRunInSpace(layout.lead, body + layout.trail, 2);
    ReplaceNoMatchPrefix(layout.lead, body + layout.trail, PipeRun(2), Placeholder);
    StepSeparatorsReplaced(dirs, layout, layout.trail);
    SpaceHasNoPipe(layout.trail);
    NoPipeUnchanged(layout.trail, 2, Placeholder);
  }

  /** Trimming a piece of the option split undoes the lead, on the first piece, and the
      trail, on the last. */
  lemma TrimPiece(xs: seq<string>, lead: string, trail: string, k: nat)
    requires k < |xs| && PipeFree(xs[k]) && AllSpace(lead) && AllSpace(trail)
    ensures var s := WithTrail(xs, trail);
            Trim(([lead + s[0]] + s[1..])[k]) == xs[k]
  {
    var s := WithTrail(xs, trail);
    var w2 := if k == |xs| - 1 then trail else "";
    WithTrailAt(xs, trail, k);
    assert s[k] == xs[k] + w2;
    if k == 0 {
      assert ([lead + s[0]] + s[1..])[k] == lead + xs[k] + w2;
      TrimPadded(lead, xs[k], w2);
    } else {
      assert ([lead + s[0]] + s[1..])[k] == "" + xs[k] + w2;
      TrimPadded("", xs[k], w2);
    }
  }

  /** The option split of placeholder-joined options, lead and trail included, gives the
      options back, the lead on the first and the trail on the last. */
  lemma OptionPieces(xs: seq<string>, layout: Layout)
    requires layout.Valid() && xs != [] && forall x :: x in xs ==> PipeFree(x)
    ensures var s := WithTrail(xs, layout.trail);
            Split(layout.lead + Join(xs, layout.option.Text()) + layout.trail, PipeRun(1))
            == [layout.lead + s[0]] + s[1..]
  {
    var j := Join(xs, layout.option.Text());
    assert xs[0] in xs;
    SpaceHasNoPipe(layout.trail);
    SplitJoinSeparated(xs, layout.option, layout.trail);
    JoinFirstChar(xs, layout.option.Text());
    NoPipeRunInSpace(layout.lead, j + layout.trail, 1);
    SplitNoMatchPrefix(layout.lead, j + layout.trail, PipeRun(1));
    assert layout.lead + j + layout.trail == layout.lead + (j + layout.trail);
  }

  /** The option strings of placeholder-joined options, lead and trail included, are those
      options. */
  lemma OptionStringsOfJoined(dirs: seq<seq<string>>, layout: Layout)
    requires layout.Valid() && dirs != [] && Writable(dirs)
    ensures OptionStrings(layout.lead + Join(Map(JoinSteps, dirs), layout.option.Text()) + layout.trail)
            == Map(JoinSteps, dirs)
  {
    var xs := Map(JoinSteps, dirs);
    forall x | x in xs ensures PipeFree(x) {
      var k :| 0 <= k < |xs| && xs[k] == x;
      assert dirs[k] in dirs;
      JoinStepsShape(dirs[k]);
    }
    OptionPieces(xs, layout);
    var s := WithTrail(xs, layout.trail);
    var pieces := [layout.lead + s[0]] + s[1..];
    forall k | 0 <= k < |xs| ensures Trim(pieces[k]) == xs[k] {
      assert xs[k] in xs;
      TrimPiece(xs, layout.lead, layout.trail, k);
    }
    assert Map(RestorePlaceholder, pieces) == pieces;
    assert Map(Trim, pieces) == xs;
    FilterKeepsAll(NonBlank, xs);
  }

  /** Every placeholder-joined option splits back into its own steps. */
  lemma StepsOfAllJoined(dirs: seq<seq<string>>)
    requires Writable(dirs)
    ensures Map(Steps, Map(JoinSteps, dirs)) == dirs
  {
    forall k | 0 <= k < |dirs| ensures Steps(JoinSteps(dirs[k])) == dirs[k] {
      assert dirs[k] in dirs;
      StepsOfJoined(dirs[k]);
    }
  }

  /** A text with a character that is not white space is not blank. */
  lemma NotBlankAt(s: string, k: nat)
    requires k < |s| && !IsSpace(s[k])
    ensures Trim(s) != ""
  {
  }

  /** Parsing undoes writing down: written-down directions, in any layout, parse back to the
      same options and steps, in order. */
  lemma ParseRender(dirs: seq<seq<string>>, layout: Layout)
    requires Writable(dirs) && layout.Valid()
    ensures ParseDirections(Render(dirs, layout)) == dirs
  {
    var text := Render(dirs, layout);
    if dirs == [] {
      assert text == layout.lead + layout.trail;
      assert forall k :: 0 <= k < |text| ==> IsSpace(text[k]);
    } else {
      assert dirs[0] in dirs;
      RenderBodyStart(dirs, layout);
      assert text[|layout.lead|] == RenderBody(dirs, layout)[0];
      NotBlankAt(text, |layout.lead|);
      NormalizedRender(dirs, layout);
      OptionStringsOfJoined(dirs, layout);
      StepsOfAllJoined(dirs);
      FilterKeepsAll(HasSteps, dirs);
    }
  }

  // ---------------------------------------------------------------------------------------
  // Descriptions that are not written-down directions

  /** A trimmed, non-blank text that does not contain the placeholder is a single step. */
  lemma SingleStep(t: string)
    requires t != "" && IsTrimmed(t) && !Contains(t, Placeholder)
    ensures Steps(t) == [t]
  {
    NotContainedNoMatch(t, Placeholder);
    SplitNoMatch(t, Literal(Placeholder));
    TrimOfTrimmed(t);
    assert Map(Trim, [t]) == [t];
    FilterKeepsAll(NonBlank, [t]);
  }

  /** A non-blank text without a pipe is one option: the text, trimmed. */
  lemma SingleOption(s: string)
    requires '|' !in s && !AllSpace(s)
    ensures OptionStrings(s) == [Trim(s)]
  {
    NoPipeNoMatch(s, 1);
    SplitNoMatch(s, PipeRun(1));
    assert Map(RestorePlaceholder, [s]) == [s];
    assert Map(Trim, [s]) == [Trim(s)];
    FilterKeepsAll(NonBlank, [Trim(s)]);
  }

  /** The last two stages of the parser, for a description that is not blank: when its option
      strings split into non-empty step lists, those are the directions. */
  lemma ParseFromOptions(description: string, options: seq<string>, dirs: seq<seq<string>>)
    requires Trim(description) != ""
    requires OptionStrings(ReplaceAll(description, PipeRun(2), Placeholder)) == options
    requires Map(Steps, options) == dirs
    ensures ParseDirections(description) == Filter(HasSteps, dirs)
  {
  }

  lemma NoPipeOptions(description: string)
    requires '|' !in description && !AllSpace(description)
    ensures OptionStrings(ReplaceAll(description, PipeRun(2), Placeholder)) == [Trim(description)]
  {
    NoPipeUnchanged(description, 2, Placeholder);
    SingleOption(description);
  }

  lemma NoPlaceholderSteps(t: string)
    requires t != "" && IsTrimmed(t) && !Contains(t, Placeholder)
    ensures Map(Steps, [t]) == [[t]]
  {
    SingleStep(t);
    MapSingle(Steps, t);
  }

  /** A description without a pipe is a single option of a single step, the trimmed
      description, unless it holds the placeholder text. */
  lemma ParseNoPipe(description: string)
    requires '|' !in description && !Contains(description, Placeholder) && !AllSpace(description)
    ensures ParseDirections(description) == [[Trim(description)]]
  {
    TrimKeepsOut(description, Placeholder);
    NoPipeOptions(description);
    NoPlaceholderSteps(Trim(description));
    ParseFromOptions(description, [Trim(description)], [[Trim(description)]]);
    FilterSingle(HasSteps, [Trim(description)]);
  }

  /** `||` directly followed by `|`, with white space around them: the `||` and all the white
      space up to the `|` become the placeholder, and the `|` stays. */
  lemma EmptyStepNormalized(a: string, double: Separator, single: Separator, b: string)
    requires PlainStep(a) && PlainStep(b)
    requires double.Padded() && double.pipes == 2 && single.Padded() && single.pipes == 1
    ensures ReplaceAll(a + double.Text() + single.Text() + b, PipeRun(2), Placeholder)
            == (a + Placeholder) + (Separator("", 1, single.after).Text() + b)
  {
    var lone := Separator("", 1, single.after).Text();
    assert a + double.Text() + single.Text() + b == a + (double.Text() + (single.Text() + b));
    ReplaceDoubleThenSingle(a, double, single, b, Placeholder);
    assert a + (Placeholder + (lone + b)) == (a + Placeholder) + (lone + b);
  }

  /** The `|` left over then separates two option strings. */
  lemma EmptyStepSplit(a: string, lone: Separator, b: string)
    requires PlainStep(a) && PlainStep(b) && lone.Padded() && lone.pipes == 1
    ensures Split((a + Placeholder) + (lone.Text() + b), PipeRun(1)) == [a + Placeholder, b]
  {
    var x := a + Placeholder;
    assert x[|x| - 1] == Placeholder[|Placeholder| - 1];
    assert '|' !in Placeholder;
    SplitSeparatedStep(x, b, lone);
    NoPipeNoMatch(b, 1);
    SplitNoMatch(b, PipeRun(1));
  }

  /** When the option split gives non-blank trimmed pieces, they are the option strings. */
  lemma CleanPieces(s: string)
    requires forall x :: x in Split(s, PipeRun(1)) ==> x != "" && IsTrimmed(x)
    ensures OptionStrings(s) == Split(s, PipeRun(1))
  {
    var xs := Split(s, PipeRun(1));
    forall k | 0 <= k < |xs| ensures Trim(xs[k]) == xs[k] {
      assert xs[k] in xs;
      TrimOfTrimmed(xs[k]);
    }
    assert Map(RestorePlaceholder, xs) == xs;
    assert Map(Trim, xs) == xs;
    FilterKeepsAll(NonBlank, xs);
  }

  /** Both option strings survive the clean-up unchanged. */
  lemma EmptyStepOptions(a: string, lone: Separator, b: string)
    requires PlainStep(a) && PlainStep(b) && lone.Padded() && lone.pipes == 1
    ensures OptionStrings((a + Placeholder) + (lone.Text() + b)) == [a + Placeholder, b]
  {
    var x := a + Placeholder;
    EmptyStepSplit(a, lone, b);
    assert x[|x| - 1] == Placeholder[|Placeholder| - 1];
    assert x[0] == a[0];
    CleanPieces((a + Placeholder) + (lone.Text() + b));
  }

  /** An option string that ends in the placeholder holds one step, the text before it. */
  lemma StepsBeforePlaceholder(a: string)
    requires PlainStep(a)
    ensures Steps(a + Placeholder) == [a]
  {
    JoinCons(a, [""], Placeholder);
    assert Placeholder + "" == Placeholder;
    SplitJoinLiteral([a, ""], Placeholder);
    TrimOfTrimmed(a);
    assert Trim("") == "";
    MapPair(Trim, a, "");
    FilterPairFirst(NonBlank, a, "");
  }

  lemma EmptyStepSteps(a: string, b: string)
    requires PlainStep(a) && PlainStep(b)
    ensures Map(Steps, [a + Placeholder, b]) == [[a], [b]]
  {
    StepsBeforePlaceholder(a);
    FirstCharAbsent(b, Placeholder);
    SingleStep(b);
    MapPair(Steps, a + Placeholder, b);
  }

  /** `||` directly followed by `|`, with any white space around them: a step separator that
      leaves an empty step, which is dropped, then an option separator, because the leftmost
      `||` is rewritten first. */
  lemma ParseEmptyStep(a: string, double: Separator, single: Separator, b: string)
    requires PlainStep(a) && PlainStep(b)
    requires double.Padded() && double.pipes == 2 && single.Padded() && single.pipes == 1
    ensures ParseDirections(a + double.Text() + single.Text() + b) == [[a], [b]]
  {
    var d := a + double.Text() + single.Text() + b;
    assert d[0] == a[0];
    NotBlankAt(d, 0);
    EmptyStepNormalized(a, double, single, b);
    EmptyStepOptions(a, Separator("", 1, single.after), b);
    EmptyStepSteps(a, b);
    ParseFromOptions(d, [a + Placeholder, b], [[a], [b]]);
    FilterPair(HasSteps, [a], [b]);
  }

  /** Three pipes in a row, without white space: a step separator followed by an option
      separator. */
  lemma ParseTriplePipe(a: string, b: string)
    requires PlainStep(a) && PlainStep(b)
    ensures ParseDirections(a + "|||" + b) == [[a], [b]]
  {
    SeparatorTexts();
    assert a + "|||" + b == a + Tight.step.Text() + Tight.option.Text() + b;
    ParseEmptyStep(a, Tight.step, Tight.option, b);
  }

  /** `A|||B` is two one-step options. */
  lemma TriplePipeExample()
    ensures ParseDirections("A|||B") == [["A"], ["B"]]
  {
    assert "A|||B" == "A" + "|||" + "B";
    ParseTriplePipe("A", "B");
  }

  /** An empty first piece of the option split is dropped. */
  lemma EmptyFirstOption(s: string, r: string)
    requires Split(s, PipeRun(1)) == [""] + Split(r, PipeRun(1))
    ensures OptionStrings(s) == OptionStrings(r)
  {
    var m := Map(Trim, Map(RestorePlaceholder, Split(r, PipeRun(1))));
    assert Trim("") == "";
    assert Map(Trim, Map(RestorePlaceholder, Split(s, PipeRun(1)))) == [""] + m;
    assert ([""] + m)[1..] == m;
  }

  /** The rewrite of step separators leaves an option separator at the start alone, and the
      text after it still starts with the same character. */
  lemma LeadingSeparatorNormalized(sep: Separator, t: string)
    requires sep.Padded() && sep.pipes == 1 && t != [] && !IsSpace(t[0]) && t[0] != '|'
    ensures var r := ReplaceAll(t, PipeRun(2), Placeholder);
            && ReplaceAll(sep.Text() + t, PipeRun(2), Placeholder) == sep.Text() + r
            && r != [] && r[0] == t[0]
  {
    LonePipeNoDouble(sep, t);
    ReplaceNoMatchPrefix(sep.Text(), t, PipeRun(2), Placeholder);
    NoPipeRunBefore(t, 0, 2);
    ReplaceUnmatchedFirst(t, PipeRun(2), Placeholder);
  }

  /** An option separator before the first option opens an empty option, which is dropped. */
  lemma ParseLeadingSeparator(sep: Separator, t: string)
    requires sep.Padded() && sep.pipes == 1 && t != [] && !IsSpace(t[0]) && t[0] != '|'
    ensures ParseDirections(sep.Text() + t) == ParseDirections(t)
  {
    var d := sep.Text() + t;
    var r := ReplaceAll(t, PipeRun(2), Placeholder);
    PipeIsNotSpace();
    assert d[|sep.before|] == '|';
    NotBlankAt(d, |sep.before|);
    NotBlankAt(t, 0);
    LeadingSeparatorNormalized(sep, t);
    SeparatorMatch(sep, r);
    SplitAtMatch(sep.Text(), r, PipeRun(1));
    EmptyFirstOption(sep.Text() + r, r);
  }

  /** `  | A ||  | B`: the leading `|` opens an empty option, the `||` leaves an empty step
      before the second `|`, and both are dropped. */
  lemma LeadingSeparatorExample()
    ensures ParseDirections("  | A ||  | B") == [["A"], ["B"]]
  {
    var lead := Separator("  ", 1, " ");
    var double := Separator(" ", 2, "  ");
    var single := Separator("", 1, " ");
    ExampleSeparators();
    LetterSteps();
    ParseEmptyStep("A", double, single, "B");
    ParseLeadingSeparator(lead, "A ||  | B");
  }

  /** The pieces of `  | A ||  | B`. */
  lemma ExampleSeparators()
    ensures var lead, double, single := Separator("  ", 1, " "), Separator(" ", 2, "  "), Separator("", 1, " ");
            && lead.Padded() && double.Padded() && single.Padded()
            && "  | A ||  | B" == lead.Text() + "A ||  | B"
            && "A ||  | B" == "A" + double.Text() + single.Text() + "B"
  {
    assert Pipes(2) == "||" && Pipes(1) == "|";
  }

  lemma LetterSteps()
    ensures PlainStep("A") && PlainStep("B") && !IsSpace('A')
  {
  }

  /** One option of two steps, written in any layout, reads back as those two steps. */
  lemma TwoStepsRoundTrip(a: string, b: string, layout: Layout)
    requires PlainStep(a) && PlainStep(b) && layout.Valid()
    ensures ParseDirections(layout.lead + a + layout.step.Text() + b + layout.trail) == [[a, b]]
  {
    RenderTwoSteps(a, b, layout);
    TwoStepsWritable(a, b);
    ParseRender([[a, b]], layout);
  }

  /** One option of two steps, written in any layout. */
  lemma RenderTwoSteps(a: string, b: string, layout: Layout)
    ensures Render([[a, b]], layout) == layout.lead + a + layout.step.Text() + b + layout.trail
  {
    JoinCons(a, [b], layout.step.Text());
    RenderSingle([a, b], layout);
  }

  lemma TwoStepsWritable(a: string, b: string)
    requires PlainStep(a) && PlainStep(b)
    ensures Writable([[a, b]])
  {
  }

  /** The texts of the separators of the spaced layout and of the tight one. */
  lemma SeparatorTexts()
    ensures Spaced.step.Text() == " || " && Spaced.option.Text() == " | "
    ensures Tight.step.Text() == "||" && Tight.option.Text() == "|"
  {
    assert Pipes(2) == "||" && Pipes(1) == "|";
  }

  lemma PlaceholderParts(a: string, b: string)
    requires PlainStep(a) && PlainStep(b)
    ensures var d := a + Placeholder + b;
            OptionStrings(ReplaceAll(d, PipeRun(2), Placeholder)) == [d] && Map(Steps, [d]) == [[a, b]]
  {
    var d := a + Placeholder + b;
    assert GoodSteps([a, b]);
    JoinCons(a, [b], Placeholder);
    JoinStepsShape([a, b]);
    NoPipeOptions(d);
    TrimOfTrimmed(d);
    StepsOfJoined([a, b]);
    MapSingle(Steps, d);
  }

  /** The placeholder text itself, written in a description, separates steps just as ` || `
      does. */
  lemma ParsePlaceholderInText(a: string, b: string)
    requires PlainStep(a) && PlainStep(b)
    ensures ParseDirections(a + Placeholder + b) == [[a, b]]
    ensures ParseDirections(a + " || " + b) == [[a, b]]
  {
    var d := a + Placeholder + b;
    assert d[0] == a[0];
    NotBlankAt(d, 0);
    PlaceholderParts(a, b);
    ParseFromOptions(d, [d], [[a, b]]);
    FilterSingle(HasSteps, [a, b]);
    SpacedTwoSteps(a, b);
  }

  lemma SpacedTwoSteps(a: string, b: string)
    requires PlainStep(a) && PlainStep(b)
    ensures ParseDirections(a + " || " + b) == [[a, b]]
  {
    SeparatorTexts();
    assert "" + a + Spaced.step.Text() + b + "" == a + " || " + b;
    TwoStepsRoundTrip(a, b, Spaced);
  }

  /** Two options, the first of two steps, written in any layout. */
  lemma RenderTwoOptions(a: string, b: string, c: string, layout: Layout)
    ensures Render([[a, b], [c]], layout)
            == layout.lead + a + layout.step.Text() + b + layout.option.Text() + c + layout.trail
  {
    JoinCons(a, [b], layout.step.Text());
    assert RenderOptions([[a, b], [c]], layout) == [RenderOption([a, b], layout), RenderOption([c], layout)];
    JoinCons(RenderOption([a, b], layout), [RenderOption([c], layout)], layout.option.Text());
  }

  /** `||` separates steps and a lone `|` separates options, in the order written, whatever
      the white space around them. */
  lemma ParseStepsAndOptions(a: string, b: string, c: string, layout: Layout)
    requires PlainStep(a) && PlainStep(b) && PlainStep(c) && layout.Valid()
    ensures ParseDirections(layout.lead + a + layout.step.Text() + b + layout.option.Text() + c + layout.trail)
            == [[a, b], [c]]
  {
    RenderTwoOptions(a, b, c, layout);
    assert GoodSteps([a, b]) && GoodSteps([c]);
    ParseRender([[a, b], [c]], layout);
  }

  /** The example of the format: `A || B | C` is two options, `A` then `B`, and `C`. */
  lemma ParseExample()
    ensures ParseDirections("A || B | C") == [["A", "B"], ["C"]]
  {
    SeparatorTexts();
    assert "A || B | C" == Spaced.lead + "A" + Spaced.step.Text() + "B" + Spaced.option.Text() + "C" + Spaced.trail;
    ParseStepsAndOptions("A", "B", "C", Spaced);
  }

  lemma RenderTight()
    ensures Render([["A", "B", "C"]], Tight) == "A||B||C"
  {
    var steps := ["A", "B", "C"];
    SeparatorTexts();
    assert steps == ["A"] + ["B", "C"];
    JoinCons("A", ["B", "C"], "||");
    JoinCons("B", ["C"], "||");
    RenderSingle(steps, Tight);
  }

  lemma ThreeStepsWritable()
    ensures Writable([["A", "B", "C"]])
  {
    assert PlainStep("A") && PlainStep("B") && PlainStep("C");
  }

  /** `A||B||C`, written without white space, is one option of three steps. */
  lemma TightExample()
    ensures ParseDirections("A||B||C") == [["A", "B", "C"]]
  {
    var steps := ["A", "B", "C"];
    RenderTight();
    ThreeStepsWritable();
    ParseRender([steps], Tight);
  }

  // ---------------------------------------------------------------------------------------
  // Copy texts

  /** The block of option `i` (0-based) in the copy-all text. */
  function OptionBlock(i: nat, steps: seq<string>): (block: string)
    ensures |block| > 7 && block[..7] == "Option "
  {
    "Option " + Decimal(i + 1) + ":\n" + Join(steps, "\n")
  }

  /** The text of the copy-all button: every option's block, blocks separated by a blank line. */
  function CopyAllText(dirs: seq<seq<string>>): (text: string)
  {
    Join(seq(|dirs|, i requires 0 <= i < |dirs| => OptionBlock(i, dirs[i])), "\n\n")
  }

  /** What the copy-all button copies: nothing when the text is empty. */
  function CopyAll(dirs: seq<seq<string>>): (copied: Option<string>)
    ensures copied.None? <==> dirs == []
    ensures dirs != [] ==> copied == Some(CopyAllText(dirs))
  {
    var text := CopyAllText(dirs);
    assert dirs != [] ==> text[..7] == "Option " by {
      if dirs != [] {
        JoinStartsWith(seq(|dirs|, i requires 0 <= i < |dirs| => OptionBlock(i, dirs[i])), "\n\n");
      }
    }
    if text == "" then None else Some(text)
  }

  /** The text of the copy button of option `idx`: its steps, one per line; an index with no
      option behind it reads as an option without steps. */
  function CopyOptionText(dirs: seq<seq<string>>, idx: int): (text: string)
    ensures !(0 <= idx < |dirs|) ==> text == ""
  {
    var steps := if 0 <= idx < |dirs| then dirs[idx] else [];
    Join(steps, "\n")
  }

  /** What the copy button of option `idx` copies: nothing when the text is empty. */
  function CopyOption(dirs: seq<seq<string>>, idx: int): (copied: Option<string>)
    ensures !(0 <= idx < |dirs|) ==> copied == None
    ensures WellFormed(dirs) && 0 <= idx < |dirs| ==> copied == Some(Join(dirs[idx], "\n"))
  {
    var text := CopyOptionText(dirs, idx);
    assert 0 <= idx < |dirs| && WellFormed(dirs) ==> text != "" by {
      if 0 <= idx < |dirs| && WellFormed(dirs) {
        assert dirs[idx] in dirs && dirs[idx][0] in dirs[idx];
        JoinStartsWith(dirs[idx], "\n");
      }
    }
    if text == "" then None else Some(text)
  }

  /** Each block of the copy-all text is the option's number, 1-based, over the text its own
      copy button copies. */
  lemma CopyAllBlocks(dirs: seq<seq<string>>)
    ensures CopyAllText(dirs) ==
      Join(seq(|dirs|, i requires 0 <= i < |dirs| => "Option " + Decimal(i + 1) + ":\n" + CopyOptionText(dirs, i)), "\n\n")
  {
    var blocks := seq(|dirs|, i requires 0 <= i < |dirs| => OptionBlock(i, dirs[i]));
    var viaCopy := seq(|dirs|, i requires 0 <= i < |dirs| => "Option " + Decimal(i + 1) + ":\n" + CopyOptionText(dirs, i));
    assert blocks == viaCopy;
  }
}
