/**
 * The preset question list of the generation workspace (data.ts:263-337) holds
 * three wordings of the same crossing-over question.  This module compares their
 * tokens and comparison keys and shows that the diagnostics put all three under
 * one cluster name.
 *
 * The three prompts share an opening and a closing and differ only in what joins
 * and follows them, so each is spelled here as a concatenation of its words and
 * the comparison works piece by piece.
 */
module Presets {
  import opened Text
  import opened Similarity
  import opened Questions
  import opened Engine

  /** The words every wording starts with. */
  const Opening: string := "Explain" + " " + "how" + " " + "crossing"

  /** The words every wording goes on with after `crossing`. */
  const Closing: string := "over" + " " + "increases" + " " + "genetic" + " " + "variation"

  /** The prompt of `q-proto-3` (data.ts:266), spelled word by word:
      `Explain how crossing over increases genetic variation.` */
  const CrossingOver: string := Opening + " " + Closing + "."

  /** The prompt of `q-proto-7` (data.ts:316), spelled word by word:
      `Explain how crossing-over increases genetic variation in gametes.` */
  const CrossingOverInGametes: string := Opening + "-" + Closing + " " + "in" + " " + "gametes" + "."

  /** The prompt of `q-proto-8` (data.ts:328), spelled word by word:
      `Explain how crossing over increases genetic variation` */
  const CrossingOverUnfinished: string := Opening + " " + Closing

  /** The words of the opening and the trailing words of the second wording are
      made of letters only. */
  lemma WordsAreLetters()
    ensures forall i :: 0 <= i < |"Explain"| ==> IsAlnum("Explain"[i])
    ensures forall i :: 0 <= i < |"how"| ==> IsAlnum("how"[i])
    ensures forall i :: 0 <= i < |"crossing"| ==> IsAlnum("crossing"[i])
    ensures forall i :: 0 <= i < |"in"| ==> IsAlnum("in"[i])
    ensures forall i :: 0 <= i < |"gametes"| ==> IsAlnum("gametes"[i])
  {
  }

  /** The opening alone gives three tokens. */
  lemma OpeningTokens()
    ensures |Tokenize(Opening)| == 3
  {
    WordsAreLetters();
    TokenizeSplit("Explain" + " " + "how", ' ', "crossing");
    TokenizeSplit("Explain", ' ', "how");
    TokenizeWord("Explain");
    TokenizeWord("how");
    TokenizeWord("crossing");
  }

  /** The trailing words of the second wording are already in lower case. */
  lemma GametesLower()
    ensures Lower("in") == "in" && Lower("gametes") == "gametes"
  {
  }

  /** The trailing words of the second wording are tokens of their own. */
  lemma GametesTokens()
    ensures Tokenize("in") == ["in"] && Tokenize("gametes") == ["gametes"]
  {
    WordsAreLetters();
    GametesLower();
    TokenizeWord("in");
    TokenizeWord("gametes");
  }

  /** The hyphen of `crossing-over` and the full stop at the end give no token. */
  lemma CrossingOverInGametesTokens()
    ensures Tokenize(CrossingOverInGametes) == Tokenize(CrossingOverUnfinished) + ["in", "gametes"]
  {
    var x := Opening + "-" + Closing;
    TokenizeTrail(x + " " + "in" + " " + "gametes", '.');
    TokenizeSplit(x + " " + "in", ' ', "gametes");
    TokenizeSplit(x, ' ', "in");
    TokenizeSplit(Opening, '-', Closing);
    TokenizeSplit(Opening, ' ', Closing);
    GametesTokens();
  }

  /** The first and the third wording give the same tokens, at least three of them;
      the second gives the same tokens followed by `in` and `gametes`. */
  lemma CrossingOverTokens()
    ensures Tokenize(CrossingOver) == Tokenize(CrossingOverUnfinished)
    ensures Tokenize(CrossingOverInGametes) == Tokenize(CrossingOverUnfinished) + ["in", "gametes"]
    ensures |Tokenize(CrossingOverUnfinished)| >= MinTokens
  {
    TokenizeTrail(Opening + " " + Closing, '.');
    CrossingOverInGametesTokens();
    TokenizeSplit(Opening, ' ', Closing);
    OpeningTokens();
  }

  /** Lower-casing and removing whitespace work piece by piece. */
  lemma LetterPieces(x: string, y: string)
    ensures Squeeze(Lower(x + y)) == Squeeze(Lower(x)) + Squeeze(Lower(y))
  {
    LowerConcat(x, y);
    SqueezeConcat(Lower(x), Lower(y));
  }

  /** The three keys are pairwise different: with whitespace removed, the first
      wording has one character more than the third (its full stop) and fewer than
      the second. */
  lemma CrossingOverKeys()
    ensures Normalize(CrossingOver) != Normalize(CrossingOverInGametes)
    ensures Normalize(CrossingOver) != Normalize(CrossingOverUnfinished)
  {
    var a, b := Squeeze(Lower(Opening)), Squeeze(Lower(Closing));
    var x := Opening + "-" + Closing;
    assert Squeeze(Lower(" ")) == [];
    assert Squeeze(Lower(".")) == ".";
    assert Squeeze(Lower("-")) == "-";
    assert Squeeze(Lower("in")) == "in";
    LetterPieces(Opening, " ");
    LetterPieces(Opening + " ", Closing);
    LetterPieces(Opening + " " + Closing, ".");
    LetterPieces(Opening, "-");
    LetterPieces(Opening + "-", Closing);
    LetterPieces(x, " ");
    LetterPieces(x + " ", "in");
    LetterPieces(x + " " + "in", " ");
    LetterPieces(x + " " + "in" + " ", "gametes");
    LetterPieces(x + " " + "in" + " " + "gametes", ".");
    assert |Squeeze(Lower(CrossingOver))| == |a| + |b| + 1;
    assert |Squeeze(Lower(CrossingOverUnfinished))| == |a| + |b|;
    assert |Squeeze(Lower(CrossingOverInGametes))| >= |a| + |b| + 3;
    NormalizeKeepsText(CrossingOver);
    NormalizeKeepsText(CrossingOverInGametes);
    NormalizeKeepsText(CrossingOverUnfinished);
  }

  /** The first wording is scored as a near-duplicate of each of the other two: the
      keys differ, and every token of the first occurs in each of the others. */
  lemma CrossingOverNearDuplicates()
    ensures Similar(CrossingOver, CrossingOverInGametes)
    ensures Similar(CrossingOver, CrossingOverUnfinished)
  {
    CrossingOverTokens();
    CrossingOverKeys();
    var t := Tokenize(CrossingOverUnfinished);
    ContainedTokensShareEnough(t, t + ["in", "gametes"]);
    ContainedTokensShareEnough(t, t);
  }

  /** Wherever the three wordings sit in a question list, the diagnostics give all
      three the same cluster name. */
  lemma CrossingOverCluster(qs: seq<Question>, diagnostics: map<string, Diagnostic>, clusters: seq<Cluster>, a: nat, b: nat, c: nat)
    requires WellFormed(qs) && Computed(qs, diagnostics, clusters)
    requires a < |qs| && b < |qs| && c < |qs|
    requires qs[a].prompt == CrossingOver && qs[b].prompt == CrossingOverInGametes && qs[c].prompt == CrossingOverUnfinished
    ensures qs[a].id in diagnostics && qs[b].id in diagnostics && qs[c].id in diagnostics
    ensures diagnostics[qs[a].id].clusterId.Some?
    ensures diagnostics[qs[b].id].clusterId == diagnostics[qs[a].id].clusterId == diagnostics[qs[c].id].clusterId
  {
    CrossingOverNearDuplicates();
    DuplicatesShareCluster(qs, diagnostics, clusters, a, b);
    DuplicatesShareCluster(qs, diagnostics, clusters, a, c);
  }
}
