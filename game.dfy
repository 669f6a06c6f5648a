/**
 * The game controller: pick a theme from the menu, draw a story of that
 * theme, ask for one answer per placeholder, fill the blanks, and show the
 * result.  The current edition (src/app.js) wraps the completed story at 75
 * columns; the older edition (assets/src/app.js) prints it as it is.
 *
 * The story catalog, which the game reads from a JSON file, is a parameter;
 * the draw of `Math.random()` is a parameter in `[0, 1)`; the terminal is a
 * `Terminal` holding the lines the user will type.
 */
module Game {
  import opened Wrappers
  import opened JsText
  import opened Console
  import opened ThemeMenu
  import opened Blanks
  import opened WordWrap
  import JsNumber

  datatype Placeholder = Placeholder(prompt: string)
  datatype Story = Story(title: string, story: seq<string>, placeholders: seq<Placeholder>)
  /** A theme of the catalog: its name as shown in the menu and its stories. */
  datatype Theme = Theme(name: string, stories: seq<Story>)

  /**
   * How a session ends: with the completed story, waiting for input that never
   * comes, or with the `TypeError` of reading a story from a theme without stories.
   */
  datatype Outcome = Completed(text: string) | AwaitingInput | Crashed

  /** The display width of the current edition. */
  const Width: int := 75

  /** `Math.floor(random * count)`. */
  function RandomIndex(random: real, count: nat): (i: nat)
    requires 0.0 <= random < 1.0
    ensures count > 0 ==> i < count
  {
    ScaledBelow(random, count as real);
    (random * (count as real)).Floor
  }

  /** A draw in `[0, 1)` scaled by a non-negative `c` lies in `[0, c)`, or is 0 when `c` is 0. */
  lemma ScaledBelow(random: real, c: real)
    requires 0.0 <= random < 1.0 && 0.0 <= c
    ensures 0.0 <= random * c
    ensures c > 0.0 ==> random * c < c
  {
    assert c - random * c == (1.0 - random) * c;
    if c > 0.0 {
      assert (1.0 - random) * c > 0.0;
    }
  }

  /** The prompt shown for a placeholder. */
  function PromptText(p: Placeholder): string {
    p.prompt + ": "
  }

  function Prompts(placeholders: seq<Placeholder>): (r: seq<string>)
    ensures |r| == |placeholders|
  {
    seq(|placeholders|, i requires 0 <= i < |placeholders| => PromptText(placeholders[i]))
  }

  /** The template a story's segments make: `story.join(' ')`. */
  function Template(s: Story): string {
    Join(s.story, ' ')
  }

  /**
   * `promptForInputs` / `askForInput`: one question per placeholder, in order;
   * every answer is kept as typed.
   */
  method PromptForInputs(placeholders: seq<Placeholder>, term: Terminal) returns (inputs: seq<string>, complete: bool)
    modifies term
    ensures complete <==> |placeholders| <= |old(term.pending)|
    ensures complete ==>
              && inputs == old(term.pending)[..|placeholders|]
              && term.pending == old(term.pending)[|placeholders|..]
              && term.log == old(term.log) + Dialogue(Prompts(placeholders), inputs)
    ensures !complete ==>
              && inputs == old(term.pending)
              && term.pending == []
              && term.log == old(term.log) + Dialogue(Prompts(placeholders)[..|inputs|], inputs)
                                            + [Asked(Prompts(placeholders)[|inputs|])]
  {
    ghost var lines := term.pending;
    ghost var prompts := Prompts(placeholders);
    inputs := [];
    var index := 0;
    while index < |placeholders|
      invariant 0 <= index <= |placeholders| && index <= |lines|
      invariant inputs == lines[..index]
      invariant term.pending == lines[index..]
      invariant term.log == old(term.log) + Dialogue(prompts[..index], inputs)
    {
      var input := term.Question(PromptText(placeholders[index]));
      if input.None? {
        assert lines[..index] == lines;
        return inputs, false;
      }
      ghost var p1, l1 := prompts[..index + 1], lines[..index + 1];
      DialogueExtend(p1, l1, index);
      assert p1[..index + 1] == p1 && l1[..index + 1] == l1;
      assert p1[..index] == prompts[..index] && l1[..index] == lines[..index];
      inputs := inputs + [input.value];
      index := index + 1;
    }
    assert prompts[..index] == prompts;
    complete := true;
  }

  lemma AppendAssociates<T>(a: seq<T>, b: seq<T>, c: seq<T>)
    ensures (a + b) + c == a + (b + c)
  {
  }

  /** What a session leaves behind: how it ended, the exchange, and the lines not read. */
  datatype Run = Run(outcome: Outcome, log: seq<Event>, rest: seq<string>)

  /** What follows the draw of a story: the questions, and the filled story once every one is answered. */
  function Tell(story: Story, answers: seq<string>): Run {
    var prompts := Prompts(story.placeholders);
    if |answers| < |prompts| then
      Run(AwaitingInput, Dialogue(prompts[..|answers|], answers) + [Asked(prompts[|answers|])], [])
    else
      var inputs := answers[..|prompts|];
      Run(Completed(Fill(Template(story), inputs)), Dialogue(prompts, inputs), answers[|prompts|..])
  }

  /** The session the older edition plays on the given catalog, typed lines and draw. */
  function Session(catalog: seq<Theme>, answers: seq<string>, random: real): Run
    requires 0.0 <= random < 1.0
  {
    AfterMenu(catalog, answers, FirstAccepted(answers, |catalog|), random)
  }

  /** A menu verdict that can come out of `FirstAccepted` on these answers and this catalog. */
  predicate Possible(catalog: seq<Theme>, answers: seq<string>, verdict: Option<Selection>) {
    verdict.Some? ==> verdict.value.attempt < |answers| && verdict.value.theme < |catalog|
  }

  /** The session once the menu has given its verdict on the typed lines. */
  function AfterMenu(catalog: seq<Theme>, answers: seq<string>, verdict: Option<Selection>, random: real): Run
    requires 0.0 <= random < 1.0 && Possible(catalog, answers, verdict)
  {
    match verdict
    case None => Run(AwaitingInput, MenuDialogue(answers) + [Asked(MenuPrompt)], [])
    case Some(sel) =>
      var drawn := Draw(catalog[sel.theme], answers[sel.attempt + 1..], random);
      Run(drawn.outcome, MenuDialogue(answers[..sel.attempt + 1]) + drawn.log, drawn.rest)
  }

  /** The completed story as the current edition shows it: wrapped at 75 columns. */
  function WrapOutcome(o: Outcome): Outcome {
    match o
    case Completed(text) => Completed(Wrap(text, Width))
    case _ => o
  }

  /**
   * `promptForInputs` followed by `displayCompletedStory`: ask for the story's
   * placeholders and fill its blanks with the answers.
   */
  method TellStory(story: Story, term: Terminal) returns (outcome: Outcome)
    modifies term
    ensures var told := Tell(story, old(term.pending));
            outcome == told.outcome && term.log == old(term.log) + told.log && term.pending == told.rest
  {
    var inputs, complete := PromptForInputs(story.placeholders, term);
    if !complete {
      return AwaitingInput;
    }
    outcome := Completed(Fill(Template(story), inputs));
  }

  /** What `selectRandomStory` leads to on a theme: a crash when the theme has no story, else the drawn story told. */
  function Draw(theme: Theme, answers: seq<string>, random: real): Run
    requires 0.0 <= random < 1.0
  {
    var stories := theme.stories;
    if |stories| == 0 then Run(Crashed, [], answers)
    else Tell(stories[RandomIndex(random, |stories|)], answers)
  }

  /**
   * `selectRandomStory`: draw a story of the theme and tell it.  With no story
   * to draw, reading `placeholders` of `undefined` throws before anything is asked.
   */
  method SelectRandomStory(theme: Theme, term: Terminal, random: real) returns (outcome: Outcome)
    requires 0.0 <= random < 1.0
    modifies term
    ensures var drawn := Draw(theme, old(term.pending), random);
            outcome == drawn.outcome && term.log == old(term.log) + drawn.log && term.pending == drawn.rest
  {
    var stories := theme.stories;
    if |stories| == 0 {
      assert term.log == term.log + [];
      return Crashed;
    }
    var story := stories[RandomIndex(random, |stories|)];
    outcome := TellStory(story, term);
  }

  /**
   * One session of the older edition: `displayThemes`, `selectRandomStory`,
   * `promptForInputs` and `displayCompletedStory`.
   */
  method Play(catalog: seq<Theme>, term: Terminal, random: real) returns (outcome: Outcome)
    requires 0.0 <= random < 1.0
    modifies term
    ensures var run := Session(catalog, old(term.pending), random);
            outcome == run.outcome && term.log == old(term.log) + run.log && term.pending == run.rest
  {
    ghost var answers := term.pending;
    ghost var start := term.log;
    ghost var verdict := FirstAccepted(answers, |catalog|);
    var choice := DisplayThemes(|catalog|, term);
    if choice.None? {
      return AwaitingInput;
    }
    ghost var menu := MenuDialogue(answers[..verdict.value.attempt + 1]);
    ghost var drawn := Draw(catalog[choice.value], term.pending, random);
    assert AfterMenu(catalog, answers, verdict, random) == Run(drawn.outcome, menu + drawn.log, drawn.rest);
    outcome := SelectRandomStory(catalog[choice.value], term, random);
    AppendAssociates(start, menu, drawn.log);
  }

  /** One session of the current edition: the same session, with the completed story wrapped. */
  method PlayWrapped(catalog: seq<Theme>, term: Terminal, random: real) returns (outcome: Outcome)
    requires 0.0 <= random < 1.0
    modifies term
    ensures var run := Session(catalog, old(term.pending), random);
            outcome == WrapOutcome(run.outcome) && term.log == old(term.log) + run.log && term.pending == run.rest
  {
    outcome := Play(catalog, term, random);
    if outcome.Completed? {
      var wrapped := WrapText(outcome.text, Width);
      outcome := Completed(wrapped);
    }
  }

  /**
   * A catalog of one theme with one story of two blanks: answering "1" and
   * then two words completes the story with the words in order, every line read.
   */
  lemma TwoBlankSession(name: string, title: string, a: string, b: string, first: Placeholder, second: Placeholder,
                        x: string, y: string, random: real)
    requires 0.0 <= random < 1.0
    requires '_' !in a && '_' !in b
    ensures var catalog := [Theme(name, [Story(title, [a + Marker + b + Marker], [first, second])])];
            var answers := ["1", x, y];
            var run := Session(catalog, answers, random);
            run.outcome == Completed(a + x + b + y) && run.rest == []
  {
    var catalog := [Theme(name, [Story(title, [a + Marker + b + Marker], [first, second])])];
    var answers := ["1", x, y];
    assert FirstAccepted(answers, 1) == Some(Selection(0, 0)) by {
      OneSelectsFirst(1);
      FirstAcceptedIs(answers, 1, 0, 0);
    }
    TwoBlankStory(name, title, a, b, first, second, x, y, random);
  }

  lemma TwoBlankStory(name: string, title: string, a: string, b: string, first: Placeholder, second: Placeholder,
                      x: string, y: string, random: real)
    requires 0.0 <= random < 1.0
    requires '_' !in a && '_' !in b
    ensures var story := Story(title, [a + Marker + b + Marker], [first, second]);
            var run := AfterMenu([Theme(name, [story])], ["1", x, y], Some(Selection(0, 0)), random);
            run.outcome == Completed(a + x + b + y) && run.rest == []
  {
    var story := Story(title, [a + Marker + b + Marker], [first, second]);
    var rest := [x, y];
    assert RandomIndex(random, 1) == 0;
    assert ["1", x, y][1..] == rest;
    assert Template(story) == a + Marker + b + Marker;
    FillTwo(a, b, x, y);
    assert |Prompts(story.placeholders)| == 2;
    assert rest[..2] == rest && rest[2..] == [];
  }

  /**
   * A whole session: one theme "Animals" with the story
   * "The ___ jumped over the ___"; the player picks theme 1 and answers
   * "cow" and "moon".  The completed story is "The cow jumped over the moon".
   */
  lemma CowJumpedOverTheMoon(title: string, first: Placeholder, second: Placeholder, random: real)
    requires 0.0 <= random < 1.0
    ensures var catalog := [Theme("Animals", [Story(title, ["The ___ jumped over the ___"], [first, second])])];
            var run := Session(catalog, ["1", "cow", "moon"], random);
            run.outcome == Completed("The cow jumped over the moon") && run.rest == []
  {
    CowTexts();
    TwoBlankSession("Animals", title, "The ", " jumped over the ", first, second, "cow", "moon", random);
  }

  /** The story "The ___ jumped over the ___" is the two-blank template with "The " and " jumped over the " around its blanks. */
  lemma CowTexts()
    ensures "The " + Marker + " jumped over the " + Marker == "The ___ jumped over the ___"
    ensures "The " + "cow" + " jumped over the " + "moon" == "The cow jumped over the moon"
  {
    assert "The " + Marker + " jumped over the " + Marker == "The ___ jumped over the ___";
  }

  /** The current edition prints that story as it is: it fits in one line of 75 columns. */
  lemma StoryLineUnwrapped()
    ensures WrapOutcome(Completed("The cow jumped over the moon")) == Completed("The cow jumped over the moon")
  {
    var text := "The cow jumped over the moon";
    assert |text| == 28 && text[0] == 'T' && text[27] == 'n';
    FitsOnOneLine(text, Width);
  }

  /** A rejected menu answer costs one exchange with the same menu prompt, and the session goes on from the next line. */
  lemma MenuRetries(catalog: seq<Theme>, answer: string, answers: seq<string>, random: real)
    requires 0.0 <= random < 1.0
    requires ThemeIndex(answer, |catalog|).None?
    ensures var run := Session(catalog, [answer] + answers, random);
            var again := Session(catalog, answers, random);
            run == Run(again.outcome, [Asked(MenuPrompt), Answered(answer)] + again.log, again.rest)
  {
    var all := [answer] + answers;
    assert all[1..] == answers;
    var m := |catalog|;
    var again := Session(catalog, answers, random);
    match FirstAccepted(answers, m)
    case None =>
      assert FirstAccepted(all, m) == None;
      assert again.log == MenuDialogue(answers) + [Asked(MenuPrompt)];
      MenuDialoguePrepend(answer, answers);
      AppendAssociates([Asked(MenuPrompt), Answered(answer)], MenuDialogue(answers), [Asked(MenuPrompt)]);
    case Some(sel) =>
      assert FirstAccepted(all, m) == Some(Selection(sel.attempt + 1, sel.theme));
      assert all[..sel.attempt + 2] == [answer] + answers[..sel.attempt + 1];
      assert all[sel.attempt + 2..] == answers[sel.attempt + 1..];
      var menu := MenuDialogue(answers[..sel.attempt + 1]);
      MenuDialoguePrepend(answer, answers[..sel.attempt + 1]);
      var drawn := Draw(catalog[sel.theme], answers[sel.attempt + 1..], random);
      assert again == Run(drawn.outcome, menu + drawn.log, drawn.rest);
      AppendAssociates([Asked(MenuPrompt), Answered(answer)], menu, drawn.log);
  }

  /** The menu exchange of one more answer at the front. */
  lemma {:induction false} MenuDialoguePrepend(answer: string, answers: seq<string>)
    ensures MenuDialogue([answer] + answers) == [Asked(MenuPrompt), Answered(answer)] + MenuDialogue(answers)
    decreases |answers|
  {
    if answers == [] {
      MenuDialogueExtend([answer], 0);
      assert [answer][..0] == [] && [answer][..1] == [answer];
    } else {
      var n := |answers| - 1;
      var all := [answer] + answers;
      MenuDialoguePrepend(answer, answers[..n]);
      MenuDialogueExtend(all, n + 1);
      MenuDialogueExtend(answers, n);
      assert all[..n + 2] == all && answers[..n + 1] == answers;
      assert all[..n + 1] == [answer] + answers[..n];
    }
  }

  /**
   * A completed session used exactly one typed line per placeholder after the
   * accepted menu answer, and filled the blanks with those lines in order.
   * (`Session` is `AfterMenu` on the verdict of `FirstAccepted`.)
   */
  lemma CompletedUsesOneLinePerBlank(catalog: seq<Theme>, answers: seq<string>, verdict: Option<Selection>, random: real)
    requires 0.0 <= random < 1.0 && Possible(catalog, answers, verdict)
    ensures var run := AfterMenu(catalog, answers, verdict, random);
            run.outcome.Completed? ==>
              var sel := verdict.value;
              var stories := catalog[sel.theme].stories;
              var story := stories[RandomIndex(random, |stories|)];
              && sel.attempt + 1 + |story.placeholders| <= |answers|
              && run.rest == answers[sel.attempt + 1 + |story.placeholders|..]
              && run.outcome.text == Fill(Template(story), answers[sel.attempt + 1..sel.attempt + 1 + |story.placeholders|])
  {
    if verdict.Some? {
      var sel := verdict.value;
      var rest := answers[sel.attempt + 1..];
      var stories := catalog[sel.theme].stories;
      if |stories| > 0 {
        var story := stories[RandomIndex(random, |stories|)];
        var n := |story.placeholders|;
        if n <= |rest| {
          assert rest[..n] == answers[sel.attempt + 1..sel.attempt + 1 + n];
          assert rest[n..] == answers[sel.attempt + 1 + n..];
        }
      }
    }
  }
}
