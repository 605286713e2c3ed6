/**
 * The yes/no gate of the provisioning script (`query_yes_no`): it prompts,
 * reads one response, lower-cases it, and returns on exactly "y" or "n";
 * any other response prints a reminder and prompts again. Console input is
 * modelled as the sequence of responses the operator will type; running out
 * of responses is how reading past the end of input (an error in the script)
 * shows up here.
 */
module Prompt {
  import opened Wrappers

  /** Lower-casing of one character, on the ASCII letters. */
  function LowerChar(c: char): char {
    if 'A' <= c <= 'Z' then (c as int + 32) as char else c
  }

  /** `s.lower()`, on the ASCII letters. */
  function Lower(s: string): (r: string)
    ensures |r| == |s|
  {
    seq(|s|, k requires 0 <= k < |s| => LowerChar(s[k]))
  }

  /** A response the gate accepts: its lower-case form is exactly "y" or "n". */
  predicate IsChoice(response: string) {
    Lower(response) == "y" || Lower(response) == "n"
  }

  /** The only responses that lower-case to "y" are "y" and "Y". */
  lemma LowerIsYes(response: string)
    ensures Lower(response) == "y" <==> response == "y" || response == "Y"
  {
    if |response| == 1 {
      assert Lower(response) == [LowerChar(response[0])];
      assert response == [response[0]];
      assert LowerChar(response[0]) == 'y' <==> response[0] == 'y' || response[0] == 'Y';
    }
  }

  /** The only responses that lower-case to "n" are "n" and "N". */
  lemma LowerIsNo(response: string)
    ensures Lower(response) == "n" <==> response == "n" || response == "N"
  {
    if |response| == 1 {
      assert Lower(response) == [LowerChar(response[0])];
      assert response == [response[0]];
      assert LowerChar(response[0]) == 'n' <==> response[0] == 'n' || response[0] == 'N';
    }
  }

  /**
   * What one call of the gate comes to: the answer (`None` when the responses
   * run out first) and how many times it had to prompt again.
   */
  datatype Reply = Reply(answer: Option<bool>, reprompts: nat)

  /** The gate as a function of the responses it will read. */
  function Ask(responses: seq<string>): Reply {
    if responses == [] then Reply(None, 0)
    else if Lower(responses[0]) == "y" then Reply(Some(true), 0)
    else if Lower(responses[0]) == "n" then Reply(Some(false), 0)
    else
      var later := Ask(responses[1..]);
      Reply(later.answer, later.reprompts + 1)
  }

  /**
   * The gate answers exactly when some response is a choice; it re-prompts
   * once for every response before the first choice, and says yes iff that
   * first choice lower-cases to "y". Without a choice it consumes everything.
   */
  lemma {:induction false} AskAnswersFirstChoice(responses: seq<string>)
    ensures var r := Ask(responses);
      && (r.answer.Some? <==> exists k :: 0 <= k < |responses| && IsChoice(responses[k]))
      && r.reprompts <= |responses|
      && (forall k :: 0 <= k < r.reprompts ==> !IsChoice(responses[k]))
      && (r.answer.None? ==> r.reprompts == |responses|)
      && (r.answer.Some? ==> r.reprompts < |responses| && IsChoice(responses[r.reprompts])
                             && (r.answer.value <==> Lower(responses[r.reprompts]) == "y"))
  {
    if responses != [] && !IsChoice(responses[0]) {
      var later := responses[1..];
      AskAnswersFirstChoice(later);
      var r := Ask(later);
      assert forall k :: 0 <= k < |later| ==> later[k] == responses[k + 1];
      assert (exists k :: 0 <= k < |responses| && IsChoice(responses[k]))
          <==> (exists k :: 0 <= k < |later| && IsChoice(later[k])) by {
        if exists k :: 0 <= k < |responses| && IsChoice(responses[k]) {
          var k :| 0 <= k < |responses| && IsChoice(responses[k]);
          assert k != 0 && IsChoice(later[k - 1]);
        }
      }
      forall k | 0 <= k < r.reprompts + 1
        ensures !IsChoice(responses[k])
      {
        if k > 0 {
          assert responses[k] == later[k - 1];
        }
      }
    }
  }

  /** The answer is yes exactly for a first choice of "y" or "Y". */
  lemma AskYesCases(responses: seq<string>)
    ensures Ask(responses).answer == Some(true) <==>
      exists k :: (0 <= k < |responses| && (responses[k] == "y" || responses[k] == "Y")
      && forall j :: 0 <= j < k ==> !IsChoice(responses[j]))
  {
    AskAnswersFirstChoice(responses);
    var r := Ask(responses);
    if r.answer == Some(true) {
      LowerIsYes(responses[r.reprompts]);
    }
    if exists k :: (0 <= k < |responses| && (responses[k] == "y" || responses[k] == "Y")
      && forall j :: 0 <= j < k ==> !IsChoice(responses[j])) {
      var k :| (0 <= k < |responses| && (responses[k] == "y" || responses[k] == "Y")
        && forall j :: 0 <= j < k ==> !IsChoice(responses[j]));
      LowerIsYes(responses[k]);
      assert IsChoice(responses[k]);
      assert r.answer.Some?;
      assert r.reprompts == k;
    }
  }

  /** `query_yes_no`: the prompt loop, reading responses until a choice. */
  method QueryYesNo(responses: seq<string>) returns (answer: Option<bool>, reprompts: nat)
    ensures Reply(answer, reprompts) == Ask(responses)
  {
    var i := 0;
    while i < |responses|
      invariant 0 <= i <= |responses|
      invariant Ask(responses) == Reply(Ask(responses[i..]).answer, Ask(responses[i..]).reprompts + i)
      decreases |responses| - i
    {
      var choice := Lower(responses[i]);
      if choice == "y" {
        return Some(true), i;
      } else if choice == "n" {
        return Some(false), i;
      }
      assert responses[i..][1..] == responses[i + 1..];
      i := i + 1;
    }
    return None, i;
  }
}
