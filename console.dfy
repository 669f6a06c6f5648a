/**
 * The readline interface the game talks through.  Instead of a live terminal
 * it holds the lines the user is going to type, in order, and keeps a log of
 * the exchange: every prompt shown and every line answered.
 */
module Console {
  import opened Wrappers

  datatype Event = Asked(prompt: string) | Answered(line: string)

  /** Prompts answered one by one: each prompt is followed by its answer before the next prompt. */
  function Dialogue(prompts: seq<string>, answers: seq<string>): (log: seq<Event>)
    requires |prompts| == |answers|
    ensures |log| == 2 * |prompts|
  {
    if prompts == [] then []
    else
      Dialogue(prompts[..|prompts| - 1], answers[..|answers| - 1])
        + [Asked(prompts[|prompts| - 1]), Answered(answers[|answers| - 1])]
  }

  /** In a dialogue, the i-th prompt sits at position 2i and its answer right after it. */
  lemma {:induction false} DialogueAt(prompts: seq<string>, answers: seq<string>, i: nat)
    requires |prompts| == |answers| && i < |prompts|
    ensures Dialogue(prompts, answers)[2 * i] == Asked(prompts[i])
    ensures Dialogue(prompts, answers)[2 * i + 1] == Answered(answers[i])
  {
    var n := |prompts| - 1;
    if i < n {
      DialogueAt(prompts[..n], answers[..n], i);
    }
  }

  /** A dialogue of one more exchange is the shorter dialogue followed by that exchange. */
  lemma DialogueExtend(prompts: seq<string>, answers: seq<string>, k: nat)
    requires |prompts| == |answers| && k < |prompts|
    ensures Dialogue(prompts[..k + 1], answers[..k + 1])
         == Dialogue(prompts[..k], answers[..k]) + [Asked(prompts[k]), Answered(answers[k])]
  {
    assert prompts[..k + 1][..k] == prompts[..k];
    assert answers[..k + 1][..k] == answers[..k];
  }

  class Terminal {
    /** The lines the user has yet to type. */
    var pending: seq<string>
    /** Everything shown and answered so far. */
    var log: seq<Event>

    constructor (lines: seq<string>)
      ensures pending == lines && log == []
    {
      pending := lines;
      log := [];
    }

    /**
     * `rl.question(prompt, callback)`: shows the prompt and hands over the next
     * line.  When no line is left the callback never runs: `None`.
     */
    method Question(prompt: string) returns (line: Option<string>)
      modifies this
      ensures old(pending) == [] ==> line == None && pending == [] && log == old(log) + [Asked(prompt)]
      ensures old(pending) != [] ==>
                && line == Some(old(pending)[0])
                && pending == old(pending)[1..]
                && log == old(log) + [Asked(prompt), Answered(old(pending)[0])]
    {
      log := log + [Asked(prompt)];
      if pending == [] {
        line := None;
      } else {
        line := Some(pending[0]);
        log := log + [Answered(pending[0])];
        pending := pending[1..];
      }
    }
  }
}
