/**
 * The per-prompt grammar lint of the question diagnostics
 * (generation-client.tsx:115-131).
 */
module Grammar {
  import opened Text

  /** The four issues the lint reports, in the order the checks run. */
  datatype Issue = PromptIsEmpty | AddEndingPunctuation | ContainsRepeatedSpaces | StartWithCapital

  /** The message shown for an issue. */
  function Message(issue: Issue): (m: string)
    ensures |m| > 0 && m[|m| - 1] == '.'
  {
    match issue
    case PromptIsEmpty => "Prompt is empty."
    case AddEndingPunctuation => "Add ending punctuation."
    case ContainsRepeatedSpaces => "Contains repeated spaces."
    case StartWithCapital => "Start with a capital letter."
  }

  /** `/[.!?]$/`: the text ends in a full stop, an exclamation mark or a question mark. */
  predicate EndsWithPunctuation(s: string) {
    |s| > 0 && (s[|s| - 1] == '.' || s[|s| - 1] == '!' || s[|s| - 1] == '?')
  }

  /** Two space characters stand side by side at position `i` of `s`. */
  ghost predicate RepeatedSpaceAt(s: string, i: int) {
    0 <= i < |s| - 1 && s[i] == ' ' && s[i + 1] == ' '
  }

  /** `/ {2,}/`: somewhere in the text two space characters stand side by side
      (only U+0020 counts, not tabs or other whitespace). */
  function HasRepeatedSpaces(s: string): (r: bool)
    ensures r <==> exists i :: RepeatedSpaceAt(s, i)
    decreases |s|
  {
    if |s| < 2 then false
    else if s[0] == ' ' && s[1] == ' ' then
      assert RepeatedSpaceAt(s, 0);
      true
    else
      var r := HasRepeatedSpaces(s[1..]);
      assert forall i :: RepeatedSpaceAt(s[1..], i) ==> RepeatedSpaceAt(s, i + 1);
      assert forall i :: RepeatedSpaceAt(s, i) && i > 0 ==> RepeatedSpaceAt(s[1..], i - 1);
      r
  }

  /** `/^[a-z]/`: the text starts with a lower-case ASCII letter. */
  predicate StartsLowercase(s: string) {
    |s| > 0 && IsLower(s[0])
  }

  /** The position an issue takes in the list: the checks run in this order. */
  function Rank(issue: Issue): nat {
    match issue
    case PromptIsEmpty => 0
    case AddEndingPunctuation => 1
    case ContainsRepeatedSpaces => 2
    case StartWithCapital => 3
  }

  /** The grammar issues of one prompt.  A prompt that is blank after trimming gets
      exactly the "empty" issue and no other check runs; otherwise each of the three
      checks adds its issue exactly when it fires, the punctuation and capital
      checks looking at the trimmed prompt and the spacing check at the prompt as
      typed, and the issues appear in the order the checks run. */
  function GrammarIssues(prompt: string): (issues: seq<Issue>)
    ensures AllSpaces(prompt) ==> issues == [PromptIsEmpty]
    ensures !AllSpaces(prompt) ==>
      && PromptIsEmpty !in issues
      && (AddEndingPunctuation in issues <==> !EndsWithPunctuation(Trim(prompt)))
      && (ContainsRepeatedSpaces in issues <==> HasRepeatedSpaces(prompt))
      && (StartWithCapital in issues <==> StartsLowercase(Trim(prompt)))
    ensures forall i, j :: 0 <= i < j < |issues| ==> Rank(issues[i]) < Rank(issues[j])
  {
    var trimmed := Trim(prompt);
    if |trimmed| == 0 then [PromptIsEmpty]
    else
      var punctuation, spacing, capital :=
        !EndsWithPunctuation(trimmed), HasRepeatedSpaces(prompt), StartsLowercase(trimmed);
      ChecksInOrder(punctuation, spacing, capital);
      Flag(punctuation, AddEndingPunctuation) + Flag(spacing, ContainsRepeatedSpaces)
        + Flag(capital, StartWithCapital)
  }

  /** The issue, when its check fires. */
  function Flag(fires: bool, issue: Issue): seq<Issue> {
    if fires then [issue] else []
  }

  /** The three checks after the emptiness test report each issue exactly when it
      fires, in check order, and never the "empty" issue. */
  lemma ChecksInOrder(punctuation: bool, spacing: bool, capital: bool)
    ensures var issues := Flag(punctuation, AddEndingPunctuation)
        + Flag(spacing, ContainsRepeatedSpaces) + Flag(capital, StartWithCapital);
      && PromptIsEmpty !in issues
      && (AddEndingPunctuation in issues <==> punctuation)
      && (ContainsRepeatedSpaces in issues <==> spacing)
      && (StartWithCapital in issues <==> capital)
      && forall i, j :: 0 <= i < j < |issues| ==> Rank(issues[i]) < Rank(issues[j])
  {
  }

  /** The messages of a prompt's issues, as the diagnostic entry stores them. */
  function GrammarMessages(prompt: string): (messages: seq<string>)
    ensures |messages| == |GrammarIssues(prompt)|
    ensures forall i :: 0 <= i < |messages| ==> messages[i] == Message(GrammarIssues(prompt)[i])
  {
    var issues := GrammarIssues(prompt);
    seq(|issues|, i requires 0 <= i < |issues| => Message(issues[i]))
  }

  /** A prompt that passes every check gets no issue at all. */
  lemma CleanPromptHasNoIssues(prompt: string)
    requires !AllSpaces(prompt)
    requires EndsWithPunctuation(Trim(prompt)) && !HasRepeatedSpaces(prompt)
    requires !StartsLowercase(Trim(prompt))
    ensures GrammarIssues(prompt) == []
  {
  }

  /** A prompt that fails all three checks gets all three issues, in check order. */
  lemma AllThreeIssues(prompt: string)
    requires !AllSpaces(prompt)
    requires !EndsWithPunctuation(Trim(prompt)) && HasRepeatedSpaces(prompt)
    requires StartsLowercase(Trim(prompt))
    ensures GrammarIssues(prompt) == [AddEndingPunctuation, ContainsRepeatedSpaces, StartWithCapital]
  {
  }

  /** The preset prompt at data.ts:302 ("identify one benefit of genetic
      recombination  during meiosis") draws all three issues. */
  lemma {:induction false} PresetPromptDrawsAllIssues(p: string)
    requires p == "identify one benefit of genetic " + "recombination  during meiosis"
    ensures GrammarIssues(p) == [AddEndingPunctuation, ContainsRepeatedSpaces, StartWithCapital]
  {
    PresetPromptShape(p);
    LowerStartDoubleSpaceNoStop(p, 45);
  }

  /** Starting with a lower-case letter, ending in a letter and holding a double space
      fails all three checks. */
  lemma {:induction false} LowerStartDoubleSpaceNoStop(p: string, k: int)
    requires |p| > 0 && IsLower(p[0]) && IsLower(p[|p| - 1]) && RepeatedSpaceAt(p, k)
    ensures GrammarIssues(p) == [AddEndingPunctuation, ContainsRepeatedSpaces, StartWithCapital]
  {
    LowerStartDoubleSpaceShape(p, k);
    AllThreeIssues(p);
  }

  lemma {:induction false} LowerStartDoubleSpaceShape(p: string, k: int)
    requires |p| > 0 && IsLower(p[0]) && IsLower(p[|p| - 1]) && RepeatedSpaceAt(p, k)
    ensures !AllSpaces(p) && HasRepeatedSpaces(p)
    ensures !EndsWithPunctuation(Trim(p)) && StartsLowercase(Trim(p))
  {
    assert !IsSpace(p[0]) && !IsSpace(p[|p| - 1]);
    TrimUntrimmed(p);
    assert HasRepeatedSpaces(p);
  }

  lemma PresetPromptShape(p: string)
    requires p == "identify one benefit of genetic " + "recombination  during meiosis"
    ensures |p| == 61 && p[0] == 'i' && p[60] == 's' && RepeatedSpaceAt(p, 45)
  {
  }
}
