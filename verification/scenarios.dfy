/**
 Two end-to-end runs of the decoder with a four-word vocabulary
 {0: "startseq", 1: "endseq", 2: "a", 3: "dog"}.
 */
module Scenarios {
  import opened PyStr
  import opened Argmax
  import opened Decoding
  import opened CaptionText

  const Vocabulary: map<int, string> :=
    map[0 := "startseq", 1 := "endseq", 2 := "a", 3 := "dog"]

  /** A score row whose only maximum is at `k` (of four). */
  function OneHot(k: int): seq<real> {
    seq(4, i => if i == k then 1.0 else 0.0)
  }

  lemma OneHotFirstMax(k: int)
    requires 0 <= k < 4
    ensures IsFirstMax(OneHot(k), k)
  {
  }

  /** A tokenizer that encodes a text as its length, and a decoder that
      answers "a" after "startseq", "dog" after "startseq a" and "endseq"
      otherwise. */
  function Tokenize(t: string): seq<int> {
    [|t|]
  }

  function Predict(features: int, row: seq<int>): seq<real> {
    if |row| > 0 && row[|row| - 1] == 8 then OneHot(2)
    else if |row| > 0 && row[|row| - 1] == 10 then OneHot(3)
    else OneHot(1)
  }

  function DogModel(): Model<int> {
    Model(0, Tokenize, Predict, Vocabulary)
  }

  /** The decoder's answer depends only on the length of the running text,
      which the tokenizer puts last in the padded row. */
  lemma DogScores(text: string)
    ensures Scores(DogModel(), 34, text) ==
      if |text| == 8 then OneHot(2) else if |text| == 10 then OneHot(3) else OneHot(1)
  {
    var row := Padding.PadPre(Tokenize(text), 34);
    assert row[33] == |text|;
  }

  /** A one-hot row decides the step by the vocabulary entry at its peak. */
  lemma DogStep(text: string, k: int)
    requires 0 <= k < 4
    requires Scores(DogModel(), 34, text) == OneHot(k)
    ensures NextWord(DogModel(), 34, text) == Lookup(Vocabulary, k)
  {
    OneHotFirstMax(k);
  }

  /** The decoder's choice for a running text of each length. */
  lemma DogAnswers(text: string)
    ensures NextWord(DogModel(), 34, text) ==
      if |text| == 8 then Append("a")
      else if |text| == 10 then Append("dog")
      else Halt(EndMarker)
  {
    DogScores(text);
    if |text| == 8 {
      DogStep(text, 2);
    } else if |text| == 10 {
      DogStep(text, 3);
    } else {
      DogStep(text, 1);
    }
  }

  /** The three queries: "startseq" gives "a", "startseq a" gives "dog",
      "startseq a dog" gives "endseq". */
  lemma DogSteps()
    ensures NextWord(DogModel(), 34, RunningText([])) == Append("a")
    ensures NextWord(DogModel(), 34, RunningText(["a"])) == Append("dog")
    ensures NextWord(DogModel(), 34, RunningText(["a", "dog"])) == Halt(EndMarker)
  {
    assert [] + ["a"] == ["a"] && ["a"] + ["dog"] == ["a", "dog"];
    TextGrowsByWord([], "a");
    TextGrowsByWord(["a"], "dog");
    assert RunningText([]) == StartSeq;
    DogAnswers(RunningText([]));
    DogAnswers(RunningText(["a"]));
    DogAnswers(RunningText(["a", "dog"]));
  }

  /** The whole run, step by step. */
  lemma DogRun()
    ensures Greedy(DogModel(), 34, [], 34) == Run(["a", "dog"], 3, EndMarker)
  {
    var m := DogModel();
    DogSteps();
    GreedyAppends(m, 34, [], 34, "a");
    assert [] + ["a"] == ["a"];
    GreedyAppends(m, 34, ["a"], 33, "dog");
    assert ["a"] + ["dog"] == ["a", "dog"];
    GreedyHalts(m, 34, ["a", "dog"], 32, EndMarker);
  }

  /** The decoder answers ids 2, 3, 1 in turn; with the default
      `max_length` of 34 the caption is "a dog" after three queries. */
  lemma ADogScenario()
    ensures Decode(DogModel(), 34) == Captioned("a dog")
    ensures Greedy(DogModel(), 34, [], 34).calls == 3
  {
    DogRun();
    var ws := ["a", "dog"];
    ShortWordIsClean("a");
    ShortWordIsClean("dog");
    DecodeOfCleanRun(DogModel(), 34, ws, 3, EndMarker);
    JoinADog(ws);
  }

  /** The two words joined by a space. */
  lemma JoinADog(ws: seq<string>)
    requires ws == ["a", "dog"]
    ensures Join(ws) == "a dog"
  {
    assert ws[1..] == ["dog"] && ws[1..][1..] == [];
    assert Spaced(ws[1..]) == " dog";
  }

  /** The caption of a finished run whose words are clean. */
  lemma DecodeOfCleanRun<F>(m: Model<F>, maxLength: int, ws: seq<string>, calls: nat, stop: Stop)
    requires Greedy(m, Budget(maxLength), [], Budget(maxLength)) == Run(ws, calls, stop)
    requires stop != EmptyScores
    requires forall i :: 0 <= i < |ws| ==> CleanWord(ws[i])
    ensures Decode(m, maxLength) == Captioned(Join(ws))
  {
    CaptionOfCleanWords(ws);
  }

  /** A lower-case word shorter than both markers is clean. */
  lemma ShortWordIsClean(w: string)
    requires 0 < |w| < 6
    requires forall i :: 0 <= i < |w| ==> 'a' <= w[i] <= 'z'
    ensures CleanWord(w)
  {
  }

  /** The example vocabulary maps an id to "startseq", so it is not a
      vocabulary of clean words, but it is marker-free. */
  lemma ExampleVocabularyIsMarkerFree()
    ensures MarkerFreeVocabulary(Vocabulary)
    ensures !CleanVocabulary(Vocabulary)
  {
    assert OccursAt(Vocabulary[0], StartSeq, 0);
    ShortWordIsClean("a");
    ShortWordIsClean("dog");
  }

  /** A word with a space inside it is not clean, yet it hides no marker. */
  lemma SpacedWordIsMarkerFree()
    ensures MarkerFreeWord("a b") && !CleanWord("a b")
  {
    assert "a b"[1] == ' ';
    NoPatternInShortText("a b", StartSeq);
    NoPatternInShortText("a b", EndSeq);
  }

  /** An appended "startseq" word is emptied, not dropped: the running text
      "startseq a startseq dog" cleans up to "a  dog", with two spaces. */
  lemma AppendedStartMarkerLeavesDoubleSpace()
    ensures Clean(RunningText(["a", StartSeq, "dog"])) == "a  dog"
  {
    var ws := ["a", StartSeq, "dog"];
    ShortWordIsClean("a");
    ShortWordIsClean("dog");
    CaptionOfMarkerFreeWords(ws);
    assert Erased(ws, StartSeq) == ["a", "", "dog"];
    SpacedWithEmptyWord();
    StripOneSpace("a  dog");
  }

  /** The spaced words "a", "", "dog", which do not start or end with whitespace
      once the leading space is gone. */
  lemma SpacedWithEmptyWord()
    ensures Spaced(["a", "", "dog"]) == " " + "a  dog"
    ensures NoEdgeSpace("a  dog")
  {
    assert " " + "a  dog" == " " + "a" + (" " + "" + (" " + "dog" + ""));
    assert ["a", "", "dog"][1..] == ["", "dog"];
    assert ["", "dog"][1..] == ["dog"];
    assert ["dog"][1..] == [];
  }

  /** A decoder that always ranks "endseq" first yields the empty caption,
      whatever `max_length` is. */
  lemma AlwaysEndScenario(maxLength: int)
    ensures Decode(Model(0, Tokenize, (f: int, row: seq<int>) => OneHot(1), Vocabulary), maxLength)
      == Captioned("")
  {
    var m := Model(0, Tokenize, (f: int, row: seq<int>) => OneHot(1), Vocabulary);
    if maxLength > 0 {
      OneHotFirstMax(1);
      assert NextWord(m, maxLength, StartSeq) == Halt(EndMarker);
      FirstStepStopGivesEmptyCaption(m, maxLength);
    }
  }
}
