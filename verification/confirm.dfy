/** The yes/no prompt: the prompt line with its bracketed default, and the loop that reads
    answers until one of them decides. */
module Confirm {
  import opened Wrappers

  /** Question asked when the caller gives none. */
  const DefaultQuestion := "Confirm"

  /** The answers that end the loop besides the empty one. */
  const Letters := ["y", "Y", "n", "N"]

  /** The question the prompt line starts with. */
  function Question(prompt: Option<string>): string {
    match prompt
    case None => DefaultQuestion
    case Some(q) => q
  }

  /** The letter of an answer, lower case. */
  function Letter(yes: bool): char {
    if yes then 'y' else 'n'
  }

  /** The prompt line: the question, then the default letter in brackets, then the other one. */
  function PromptText(prompt: Option<string>, resp: bool): (text: string)
    ensures text == Question(prompt) + (if resp then " [y]|n: " else " [n]|y: ")
    ensures |text| == |Question(prompt)| + 8
    ensures text[..|Question(prompt)|] == Question(prompt)
    ensures text[|Question(prompt)| + 2] == Letter(resp)
    ensures text[|Question(prompt)| + 5] == Letter(!resp)
  {
    Question(prompt) + " [" + [Letter(resp)] + "]|" + [Letter(!resp)] + ": "
  }

  /** An answer that ends the loop: the empty line or one of the four letters. */
  predicate Decisive(ans: string) {
    ans == "" || ans in Letters
  }

  /** What a decisive answer decides: the default for the empty line, otherwise yes exactly
      for `y`/`Y`. */
  function Verdict(ans: string, resp: bool): (yes: bool)
    requires Decisive(ans)
    ensures ans == "" ==> yes == resp
    ensures ans != "" ==> (yes <==> ans == "y" || ans == "Y")
  {
    if ans == "" then resp else ans == "y" || ans == "Y"
  }

  /** The outcome of the loop: the decision, or None when the answers ran out first (the
      read raises `EOFError`), and how many answers were read. */
  datatype Reply = Reply(answer: Option<bool>, consumed: nat)

  /** The confirmation loop over the answers typed, in order: every answer that is not
      decisive is rejected and the question asked again; the first decisive one decides. */
  function Confirm(resp: bool, answers: seq<string>): (reply: Reply)
    ensures reply.consumed <= |answers|
    ensures forall k :: 0 <= k < |answers| && k + 1 < reply.consumed ==> !Decisive(answers[k])
    ensures reply.answer.None? ==>
              reply.consumed == |answers| && forall k :: 0 <= k < |answers| ==> !Decisive(answers[k])
    ensures reply.answer.Some? ==>
              reply.consumed >= 1 && Decisive(answers[reply.consumed - 1])
              && reply.answer.value == Verdict(answers[reply.consumed - 1], resp)
    decreases |answers|
  {
    if |answers| == 0 then Reply(None, 0)
    else if Decisive(answers[0]) then Reply(Some(Verdict(answers[0], resp)), 1)
    else
      var r := Confirm(resp, answers[1..]);
      Reply(r.answer, r.consumed + 1)
  }

  /** The letter in brackets is what the empty answer decides, and the other letter shown
      decides the opposite. */
  lemma PromptShowsDefault(prompt: Option<string>, resp: bool)
    ensures var text, n := PromptText(prompt, resp), |Question(prompt)|;
            Confirm(resp, [""]).answer == Some(text[n + 2] == 'y')
            && Confirm(resp, [[text[n + 5]]]).answer == Some(text[n + 5] == 'y')
            && Confirm(resp, [[text[n + 5]]]).answer == Some(!resp)
  {
    var text, n := PromptText(prompt, resp), |Question(prompt)|;
    assert [text[n + 5]] == [Letter(!resp)];
    assert [Letter(!resp)] in Letters;
  }

  /** Answers after the deciding one are never read: appending more does not change the
      reply. */
  lemma {:induction false} LaterAnswersUnread(resp: bool, answers: seq<string>, more: seq<string>)
    requires Confirm(resp, answers).answer.Some?
    ensures Confirm(resp, answers + more) == Confirm(resp, answers)
    decreases |answers|
  {
    if !Decisive(answers[0]) {
      assert (answers + more)[1..] == answers[1..] + more;
      LaterAnswersUnread(resp, answers[1..], more);
    }
  }

  /** Rejected answers in front only add to the count of lines read. */
  lemma {:induction false} RejectedAnswersSkipped(resp: bool, rejected: seq<string>, answers: seq<string>)
    requires forall k :: 0 <= k < |rejected| ==> !Decisive(rejected[k])
    ensures Confirm(resp, rejected + answers)
         == Reply(Confirm(resp, answers).answer, |rejected| + Confirm(resp, answers).consumed)
    decreases |rejected|
  {
    if |rejected| > 0 {
      assert (rejected + answers)[0] == rejected[0];
      assert (rejected + answers)[1..] == rejected[1..] + answers;
      RejectedAnswersSkipped(resp, rejected[1..], answers);
    } else {
      assert rejected + answers == answers;
    }
  }

  /** With the default "no", a yes needs one of the answers to be a literal `y` or `Y`. */
  lemma YesNeedsLetter(answers: seq<string>)
    requires Confirm(false, answers).answer == Some(true)
    ensures exists k :: 0 <= k < |answers| && (answers[k] == "y" || answers[k] == "Y")
  {
    var reply := Confirm(false, answers);
    var ans := answers[reply.consumed - 1];
    assert Verdict(ans, false);
    assert ans != "";
    assert ans == "y" || ans == "Y";
  }
}
