/**
 * The theme menu of `displayThemes`: the answer is read with `parseInt`, one
 * is subtracted, and the answer is accepted when the result is a position in
 * the list of themes.  Any other answer (NaN, zero or less, beyond the list)
 * prints an error and shows the same menu again.
 */
module ThemeMenu {
  import opened Wrappers
  import opened JsNumber
  import opened Console
  import JsText

  const MenuPrompt: string := "Please select a theme by entering the corresponding number: "

  /** `parseInt(answer) - 1` when it lies in `[0, count)`; `None` when the answer is rejected. */
  function ThemeIndex(answer: string, count: nat): (r: Option<nat>)
    ensures r.Some? ==> r.value < count && ParseInt(answer) == Some(r.value + 1)
    ensures r.None? ==> ParseInt(answer).None? || ParseInt(answer).value < 1 || ParseInt(answer).value > count
  {
    match ParseInt(answer)
    // NaN - 1 is NaN, and both comparisons with NaN are false
    case None => None
    case Some(n) => if n - 1 >= 0 && n - 1 < count then Some(n - 1) else None
  }

  /** Typing the number shown in front of a theme selects that theme, whatever whitespace precedes it and whatever non-digit text follows. */
  lemma ShownNumberSelects(i: nat, count: nat, pad: string, junk: string)
    requires i < count
    requires forall k :: 0 <= k < |pad| ==> JsText.IsWhitespace(pad[k])
    requires junk == [] || !IsDigit(junk[0])
    ensures ThemeIndex(pad + Decimal(i + 1) + junk, count) == Some(i)
  {
    ParseNumeral(pad, i + 1, junk);
  }

  /** A number below one or above the number of themes is rejected. */
  lemma OutOfRangeRejected(n: int, count: nat, pad: string, junk: string)
    requires n < 1 || n > count
    requires forall k :: 0 <= k < |pad| ==> JsText.IsWhitespace(pad[k])
    requires junk == [] || !IsDigit(junk[0])
    ensures ThemeIndex(pad + Numeral(n) + junk, count) == None
  {
    ParseNumeral(pad, n, junk);
  }

  /** An answer without any digit is NaN to `parseInt` and is rejected. */
  lemma NonNumericRejected(answer: string, count: nat)
    requires forall k :: 0 <= k < |answer| ==> !IsDigit(answer[k])
    ensures ThemeIndex(answer, count) == None
  {
    NoDigitsIsNaN(answer);
  }

  /** "1" selects the first theme of any non-empty menu. */
  lemma OneSelectsFirst(count: nat)
    requires 0 < count
    ensures ThemeIndex("1", count) == Some(0)
  {
    assert JsText.TrimStart("1") == "1";
    assert LeadingDigits("1") == "1";
    assert Value("1") == 1;
    assert ParseInt("1") == Some(1);
  }

  /** "0" is rejected whatever the menu. */
  lemma ZeroRejected(count: nat)
    ensures ThemeIndex("0", count) == None
  {
    OutOfRangeRejected(0, count, "", "");
    assert "" + Numeral(0) + "" == "0";
  }

  /** "-1" is rejected whatever the menu. */
  lemma MinusOneRejected(count: nat)
    ensures ThemeIndex("-1", count) == None
  {
    OutOfRangeRejected(-1, count, "", "");
    assert Decimal(1) == "1";
    assert "" + Numeral(-1) + "" == "-1";
  }

  /** Where the menu loop stops: the position of the accepted answer and the theme it selects. */
  datatype Selection = Selection(attempt: nat, theme: nat)

  /** The first accepted answer in a list of answers, if any. */
  function FirstAccepted(answers: seq<string>, count: nat): (r: Option<Selection>)
    ensures r.Some? ==> r.value.attempt < |answers| && r.value.theme < count
  {
    if answers == [] then None
    else match ThemeIndex(answers[0], count)
      case Some(t) => Some(Selection(0, t))
      case None =>
        match FirstAccepted(answers[1..], count)
        case None => None
        case Some(sel) => Some(Selection(sel.attempt + 1, sel.theme))
  }

  /**
   * What the menu loop stops on: no answer is accepted, or the selection is
   * the theme of an accepted answer and every earlier answer was rejected.
   */
  lemma {:induction false} FirstAcceptedMeans(answers: seq<string>, count: nat)
    ensures var r := FirstAccepted(answers, count);
            && (r.None? ==> forall j :: 0 <= j < |answers| ==> ThemeIndex(answers[j], count).None?)
            && (r.Some? ==> && ThemeIndex(answers[r.value.attempt], count) == Some(r.value.theme)
                            && forall j :: 0 <= j < r.value.attempt ==> ThemeIndex(answers[j], count).None?)
    decreases |answers|
  {
    if answers != [] && ThemeIndex(answers[0], count).None? {
      var tail := answers[1..];
      FirstAcceptedMeans(tail, count);
      var rt := FirstAccepted(tail, count);
      if rt.None? {
        assert FirstAccepted(answers, count) == None;
        forall j | 0 <= j < |answers|
          ensures ThemeIndex(answers[j], count).None?
        {
          if j > 0 {
            assert answers[j] == tail[j - 1];
          }
        }
      } else {
        var sel := rt.value;
        assert FirstAccepted(answers, count) == Some(Selection(sel.attempt + 1, sel.theme));
        assert answers[sel.attempt + 1] == tail[sel.attempt];
        forall j | 0 <= j < sel.attempt + 1
          ensures ThemeIndex(answers[j], count).None?
        {
          if j > 0 {
            assert answers[j] == tail[j - 1];
          }
        }
      }
    }
  }

  /** The converse: the first accepted answer is the one the loop stops on. */
  lemma {:induction false} FirstAcceptedIs(answers: seq<string>, count: nat, k: nat, t: nat)
    requires k < |answers| && ThemeIndex(answers[k], count) == Some(t)
    requires forall j :: 0 <= j < k ==> ThemeIndex(answers[j], count).None?
    ensures FirstAccepted(answers, count) == Some(Selection(k, t))
    decreases k
  {
    if k > 0 {
      assert ThemeIndex(answers[0], count).None?;
      var tail := answers[1..];
      assert tail[k - 1] == answers[k];
      assert forall j :: 0 <= j < k - 1 ==> tail[j] == answers[j + 1];
      FirstAcceptedIs(tail, count, k - 1, t);
    }
  }

  /** When every answer is rejected, the loop never stops on one. */
  lemma {:induction false} FirstAcceptedNone(answers: seq<string>, count: nat)
    requires forall j :: 0 <= j < |answers| ==> ThemeIndex(answers[j], count).None?
    ensures FirstAccepted(answers, count) == None
    decreases |answers|
  {
    if answers != [] {
      var tail := answers[1..];
      assert ThemeIndex(answers[0], count).None?;
      assert forall j :: 0 <= j < |tail| ==> tail[j] == answers[j + 1];
      FirstAcceptedNone(tail, count);
    }
  }

  /** Every answer of the list is rejected by the menu. */
  predicate Rejects(answers: seq<string>, count: nat) {
    answers == [] || (ThemeIndex(answers[|answers| - 1], count).None? && Rejects(answers[..|answers| - 1], count))
  }

  lemma {:induction false} RejectsAll(answers: seq<string>, count: nat)
    ensures Rejects(answers, count) <==> forall j :: 0 <= j < |answers| ==> ThemeIndex(answers[j], count).None?
    decreases |answers|
  {
    if answers != [] {
      var n := |answers| - 1;
      var init := answers[..n];
      RejectsAll(init, count);
      if Rejects(answers, count) {
        forall j | 0 <= j < |answers|
          ensures ThemeIndex(answers[j], count).None?
        {
          if j < n {
            assert init[j] == answers[j];
          }
        }
      }
      if forall j :: 0 <= j < |answers| ==> ThemeIndex(answers[j], count).None? {
        forall j | 0 <= j < n
          ensures ThemeIndex(init[j], count).None?
        {
          assert init[j] == answers[j];
        }
      }
    }
  }

  /** The exchange of a menu answered with the given lines. */
  function MenuDialogue(answers: seq<string>): seq<Event>
  {
    Dialogue(seq(|answers|, _ => MenuPrompt), answers)
  }

  lemma MenuDialogueExtend(answers: seq<string>, k: nat)
    requires k < |answers|
    ensures MenuDialogue(answers[..k + 1]) == MenuDialogue(answers[..k]) + [Asked(MenuPrompt), Answered(answers[k])]
  {
    var prompts := seq(|answers|, _ => MenuPrompt);
    DialogueExtend(prompts, answers, k);
    assert prompts[..k + 1] == seq(k + 1, _ => MenuPrompt);
    assert prompts[..k] == seq(k, _ => MenuPrompt);
  }

  /**
   * One round of `displayThemes`: show the menu prompt and check the answer.
   * With no line left to read the callback never runs and nothing is chosen.
   */
  method MenuRound(count: nat, term: Terminal) returns (answered: bool, choice: Option<nat>)
    modifies term
    ensures answered <==> old(term.pending) != []
    ensures !answered ==> choice == None && term.pending == [] && term.log == old(term.log) + [Asked(MenuPrompt)]
    ensures answered ==>
              && choice == ThemeIndex(old(term.pending)[0], count)
              && term.pending == old(term.pending)[1..]
              && term.log == old(term.log) + [Asked(MenuPrompt), Answered(old(term.pending)[0])]
  {
    var answer := term.Question(MenuPrompt);
    answered := answer.Some?;
    if answered {
      choice := ThemeIndex(answer.value, count);
    } else {
      choice := None;
    }
  }

  /**
   * `displayThemes`: ask, check, and on a rejected answer ask again with the
   * same menu, until an answer is accepted or the input runs out.
   */
  method DisplayThemes(count: nat, term: Terminal) returns (choice: Option<nat>)
    modifies term
    ensures var fa := FirstAccepted(old(term.pending), count);
            fa.None? ==>
              && choice == None
              && term.pending == []
              && term.log == old(term.log) + MenuDialogue(old(term.pending)) + [Asked(MenuPrompt)]
    ensures var fa := FirstAccepted(old(term.pending), count);
            fa.Some? ==>
              && choice == Some(fa.value.theme)
              && term.pending == old(term.pending)[fa.value.attempt + 1..]
              && term.log == old(term.log) + MenuDialogue(old(term.pending)[..fa.value.attempt + 1])
  {
    ghost var answers := term.pending;
    ghost var start := term.log;
    ghost var k := 0;
    while true
      invariant 0 <= k <= |answers|
      invariant Rejects(answers[..k], count)
      invariant term.pending == answers[k..]
      invariant term.log == start + MenuDialogue(answers[..k])
      decreases |term.pending|
    {
      ghost var before := term.log;
      var answered;
      answered, choice := MenuRound(count, term);
      if !answered {
        assert answers[..k] == answers;
        assert FirstAccepted(answers, count) == None by {
          RejectsAll(answers, count);
          FirstAcceptedNone(answers, count);
        }
        return;
      }
      assert answers[k..][0] == answers[k] && answers[k..][1..] == answers[k + 1..];
      MenuDialogueExtend(answers, k);
      assert term.log == before + [Asked(MenuPrompt), Answered(answers[k])];
      assert term.log == start + MenuDialogue(answers[..k + 1]);
      assert choice == ThemeIndex(answers[k], count);
      if choice.Some? {
        assert FirstAccepted(answers, count) == Some(Selection(k, choice.value)) by {
          RejectsAll(answers[..k], count);
          assert forall j :: 0 <= j < k ==> answers[..k][j] == answers[j];
          FirstAcceptedIs(answers, count, k, choice.value);
        }
        return;
      }
      assert answers[..k + 1][..k] == answers[..k];
      k := k + 1;
    }
  }
}
