/**
 The greedy caption decoder of `generate_and_display_caption`: starting
 from the text "startseq", run at most `max_length` steps; each step
 tokenizes the running text, pads the ids, asks the caption model for
 scores, takes the first maximum, and looks its index up in
 `tokenizer.index_word`. An unknown index or the word "endseq" ends the
 loop; any other word is appended after a space. The caption is the
 running text with every "startseq" and "endseq" removed and the ends
 stripped.

 The tokenizer, the caption model and the image features are opaque and
 are passed in; the vocabulary is a map.
 */
module Decoding {
  import opened PyStr
  import opened Padding
  import opened Argmax

  const StartSeq: string := "startseq"
  const EndSeq: string := "endseq"

  /** The collaborators the loop drives. `tokenize` is
      `tokenizer.texts_to_sequences` applied to one text; `predict` is
      `caption_model.predict` on the features and one padded row, flattened
      to the row of scores `np.argmax` scans; `indexWord` is
      `tokenizer.index_word`. */
  datatype Model<!F> = Model(
    features: F,
    tokenize: string -> seq<int>,
    predict: (F, seq<int>) -> seq<real>,
    indexWord: map<int, string>)

  /** How often `for _ in range(max_length)` runs: a negative bound gives
      an empty range. */
  function Budget(maxLength: int): (n: nat)
    ensures n == 0 <==> maxLength <= 0
    ensures n > 0 ==> n == maxLength
  {
    if maxLength > 0 then maxLength else 0
  }

  /** Every word preceded by one space, as the appends build it. */
  function Spaced(ws: seq<string>): string {
    if ws == [] then "" else " " + ws[0] + Spaced(ws[1..])
  }

  /** The running text `in_text` after the words `ws` were appended. */
  function RunningText(ws: seq<string>): string {
    StartSeq + Spaced(ws)
  }

  /** The words separated by single spaces. */
  function Join(ws: seq<string>): string {
    if ws == [] then "" else ws[0] + Spaced(ws[1..])
  }

  lemma {:induction false} SpacedSnoc(ws: seq<string>, w: string)
    ensures Spaced(ws + [w]) == Spaced(ws) + " " + w
    decreases |ws|
  {
    if ws != [] {
      assert (ws + [w])[1..] == ws[1..] + [w];
      SpacedSnoc(ws[1..], w);
    }
  }

  /** Appending a word extends the running text by exactly a space and the
      word; nothing before it changes. */
  lemma TextGrowsByWord(ws: seq<string>, w: string)
    ensures RunningText(ws + [w]) == RunningText(ws) + " " + w
  {
    SpacedSnoc(ws, w);
  }

  /** The running text only ever grows at its end: the text for fewer
      words is a prefix of the text for more, and all of them start with
      "startseq". */
  lemma {:induction false} RunningTextPrefix(ws: seq<string>, more: seq<string>)
    requires ws <= more
    ensures StartSeq <= RunningText(ws) <= RunningText(more)
    decreases |more|
  {
    if |more| > |ws| {
      var shorter := more[..|more| - 1];
      assert more == shorter + [more[|more| - 1]];
      TextGrowsByWord(shorter, more[|more| - 1]);
      RunningTextPrefix(ws, shorter);
    } else {
      assert ws == more;
    }
  }

  /** Why the loop ended. */
  datatype Stop =
    | BudgetSpent            // all `max_length` iterations appended a word
    | UnknownIndex(index: int) // `index_word.get` found nothing
    | EndMarker              // the word was "endseq"
    | EmptyScores            // `np.argmax` of an empty row raises

  /** What one iteration does with the running text. */
  datatype Step = Append(word: string) | Halt(why: Stop)

  /** The exit test on the looked-up index. */
  function Lookup(indexWord: map<int, string>, k: int): (s: Step)
    ensures s.Append? <==> k in indexWord && indexWord[k] != EndSeq
    ensures s.Append? ==> s.word == indexWord[k] && s.word in indexWord.Values
    ensures s.Halt? ==> (s.why == UnknownIndex(k) <==> k !in indexWord)
    ensures s.Halt? ==> (s.why == EndMarker <==> k in indexWord)
  {
    if k !in indexWord then Halt(UnknownIndex(k))
    else if indexWord[k] == EndSeq then Halt(EndMarker)
    else Append(indexWord[k])
  }

  /** The scores the caption model gives for the running text, padded to
      width `n`. */
  function Scores<F>(m: Model<F>, n: nat, text: string): seq<real> {
    m.predict(m.features, PadPre(m.tokenize(text), n))
  }

  /** Pre-truncation means the caption model sees only the last `n` token
      ids: two texts whose token lists end alike there get the same scores. */
  lemma ScoresSeeLastIds<F>(m: Model<F>, n: nat, t1: string, t2: string)
    requires |m.tokenize(t1)| >= n && |m.tokenize(t2)| >= n
    requires m.tokenize(t1)[|m.tokenize(t1)| - n..] == m.tokenize(t2)[|m.tokenize(t2)| - n..]
    ensures Scores(m, n, t1) == Scores(m, n, t2)
  {
    PadPreLong(m.tokenize(t1), n);
    PadPreLong(m.tokenize(t2), n);
  }

  /** One loop iteration: empty scores raise, otherwise the first maximum of
      the scores decides. */
  function NextWord<F>(m: Model<F>, n: nat, text: string): (s: Step)
    ensures s == Halt(EmptyScores) <==> |Scores(m, n, text)| == 0
    ensures forall k :: IsFirstMax(Scores(m, n, text), k) ==> s == Lookup(m.indexWord, k)
    ensures s != Halt(BudgetSpent)
  {
    var yhat := Scores(m, n, text);
    if |yhat| == 0 then Halt(EmptyScores)
    else
      var k := ArgMax(yhat);
      FirstMaxIsArgMax(yhat, k);
      Lookup(m.indexWord, k)
  }

  /** The outcome of decoding: the appended words, how many times the
      caption model was queried, and why the loop ended. */
  datatype Run = Run(words: seq<string>, calls: nat, stop: Stop)

  /** Greedy decoding from the words appended so far, with `remaining`
      iterations left; rows are padded to width `n`. Every appended word is
      the choice `NextWord` makes for the text before it, and the loop ends
      either with the budget spent or at a step that halts without
      appending. */
  function Greedy<F>(m: Model<F>, n: nat, words: seq<string>, remaining: nat): (r: Run)
    ensures words <= r.words
    ensures r.calls <= remaining
    ensures remaining > 0 ==> r.calls > 0
    ensures r.stop == BudgetSpent ==> r.calls == remaining
    ensures |r.words| == |words| + (if r.stop == BudgetSpent then r.calls else r.calls - 1)
    ensures r.stop == BudgetSpent <==> |r.words| == |words| + remaining
    decreases remaining
  {
    if remaining == 0 then Run(words, 0, BudgetSpent)
    else
      match NextWord(m, n, RunningText(words))
      case Halt(why) => Run(words, 1, why)
      case Append(w) =>
        var r := Greedy(m, n, words + [w], remaining - 1);
        r.(calls := r.calls + 1)
  }

  /** Every word `Greedy` appends is the choice `NextWord` makes for the
      running text before it, and a run that ends early ends at a step
      that halts for the reason recorded. */
  lemma {:induction false} GreedyFollowsNextWord<F>(m: Model<F>, n: nat, words: seq<string>, remaining: nat)
    ensures var r := Greedy(m, n, words, remaining);
      && (r.stop != BudgetSpent ==> NextWord(m, n, RunningText(r.words)) == Halt(r.stop))
      && forall i :: |words| <= i < |r.words| ==>
           NextWord(m, n, RunningText(r.words[..i])) == Append(r.words[i])
    decreases remaining
  {
    if remaining > 0 {
      match NextWord(m, n, RunningText(words))
      case Halt(why) =>
      case Append(w) =>
        var r := Greedy(m, n, words + [w], remaining - 1);
        GreedyFollowsNextWord(m, n, words + [w], remaining - 1);
        assert r.words[..|words|] == words;
        assert r.words[|words|] == w;
    }
  }

  /** `r` with `c` more caption-model queries in front of it. */
  function Shift(r: Run, c: nat): Run {
    r.(calls := r.calls + c)
  }

  /** One appending step of `Greedy`, unfolded. */
  lemma GreedyAppends<F>(m: Model<F>, n: nat, words: seq<string>, remaining: nat, w: string)
    requires remaining > 0
    requires NextWord(m, n, RunningText(words)) == Append(w)
    ensures Greedy(m, n, words, remaining) == Shift(Greedy(m, n, words + [w], remaining - 1), 1)
  {
  }

  /** One halting step of `Greedy`, unfolded. */
  lemma GreedyHalts<F>(m: Model<F>, n: nat, words: seq<string>, remaining: nat, why: Stop)
    requires remaining > 0
    requires NextWord(m, n, RunningText(words)) == Halt(why)
    ensures Greedy(m, n, words, remaining) == Run(words, 1, why)
  {
  }

  /** The caption clean-up: drop every "startseq", then every "endseq",
      then strip the ends. */
  function Clean(text: string): (c: string)
    ensures NoEdgeSpace(c)
    ensures |c| <= |text|
  {
    Strip(RemoveAll(RemoveAll(text, StartSeq), EndSeq))
  }

  /** What `generate_and_display_caption` computes before display. */
  datatype Outcome = Captioned(caption: string) | ArgmaxOfEmpty

  /** The whole of `generate_and_display_caption` up to display, as a
      function of the collaborators and `max_length`. */
  function Decode<F>(m: Model<F>, maxLength: int): (o: Outcome)
    ensures maxLength <= 0 ==> o == Captioned("")
    ensures o.Captioned? ==> NoEdgeSpace(o.caption)
  {
    var n := Budget(maxLength);
    var run := Greedy(m, n, [], n);
    CleanOfNoWords();
    if run.stop == EmptyScores then ArgmaxOfEmpty
    else Captioned(Clean(RunningText(run.words)))
  }

  /** The decoding loop and the clean-up, as written. `calls` counts the
      caption-model queries. */
  method GenerateCaption<F>(m: Model<F>, maxLength: int) returns (outcome: Outcome, calls: nat)
    ensures outcome == Decode(m, maxLength)
    ensures calls == Greedy(m, Budget(maxLength), [], Budget(maxLength)).calls
    ensures calls <= Budget(maxLength)
    ensures maxLength <= 0 ==> calls == 0 && outcome == Captioned("")
    ensures outcome.Captioned? ==> NoEdgeSpace(outcome.caption)
  {
    var n := Budget(maxLength);
    var inText := StartSeq;
    ghost var words: seq<string> := [];
    calls := 0;
    var i := 0;
    ghost var why := BudgetSpent;
    while i < n
      invariant 0 <= i <= n && calls == i && |words| == i
      invariant why == BudgetSpent
      invariant inText == RunningText(words)
      invariant Greedy(m, n, [], n) == Shift(Greedy(m, n, words, n - i), i)
    {
      var sequence := m.tokenize(inText);
      // the loop only runs when max_length > 0, so n is max_length here
      var padded := PadPre(sequence, n);
      var yhat := m.predict(m.features, padded);
      calls := calls + 1;
      if |yhat| == 0 {
        GreedyHalts(m, n, words, n - i, EmptyScores);
        DecodeOfRun(m, maxLength, Run(words, calls, EmptyScores));
        outcome := ArgmaxOfEmpty;
        return;
      }
      var k := ArgMax(yhat);
      ghost var step := Lookup(m.indexWord, k);
      NextWordUnfold(m, n, inText, yhat, k);
      if k !in m.indexWord || m.indexWord[k] == EndSeq {
        GreedyHalts(m, n, words, n - i, step.why);
        why := step.why;
        break;
      }
      var word := m.indexWord[k];
      GreedyAppends(m, n, words, n - i, word);
      TextGrowsByWord(words, word);
      inText := inText + " " + word;
      words := words + [word];
      i := i + 1;
    }
    assert Greedy(m, n, [], n) == Run(words, calls, why);
    outcome := Captioned(Clean(inText));
    DecodeOfRun(m, maxLength, Run(words, calls, why));
  }

  /** One iteration's inline computation is `NextWord`. */
  lemma NextWordUnfold<F>(m: Model<F>, n: nat, text: string, yhat: seq<real>, k: nat)
    requires yhat == m.predict(m.features, PadPre(m.tokenize(text), n))
    requires |yhat| > 0 && k == ArgMax(yhat)
    ensures NextWord(m, n, text) == Lookup(m.indexWord, k)
  {
  }

  /** `Decode` read off a finished run. */
  lemma DecodeOfRun<F>(m: Model<F>, maxLength: int, run: Run)
    requires Greedy(m, Budget(maxLength), [], Budget(maxLength)) == run
    ensures Decode(m, maxLength) ==
      if run.stop == EmptyScores then ArgmaxOfEmpty
      else Captioned(Clean(RunningText(run.words)))
  {
  }

  /** Before any word is appended the running text is the bare start
      marker, and it cleans up to the empty caption. */
  lemma CleanOfNoWords()
    ensures Clean(RunningText([])) == ""
  {
    RemoveAllLeadingPattern(StartSeq, "");
    assert RunningText([]) == StartSeq + "" == StartSeq;
  }

  /** Stopping on the very first step (an unknown index or "endseq") costs
      one query and leaves the empty caption. */
  lemma FirstStepStopGivesEmptyCaption<F>(m: Model<F>, maxLength: int)
    requires maxLength > 0
    requires NextWord(m, maxLength, StartSeq).Halt?
    requires NextWord(m, maxLength, StartSeq).why != EmptyScores
    ensures Decode(m, maxLength) == Captioned("")
    ensures Greedy(m, maxLength, [], maxLength).calls == 1
  {
    assert RunningText([]) == StartSeq;
    GreedyHalts(m, maxLength, [], maxLength, NextWord(m, maxLength, StartSeq).why);
    CleanOfNoWords();
  }

  /** When no step can stop, all `max_length` iterations append: the
      running text is "startseq" followed by `max_length` spaced words. */
  lemma NeverStoppingFillsBudget<F>(m: Model<F>, maxLength: int)
    requires forall t :: NextWord(m, Budget(maxLength), t).Append?
    ensures var n := Budget(maxLength);
      var run := Greedy(m, n, [], n);
      run.stop == BudgetSpent && run.calls == n && |run.words| == n
  {
    GreedyFollowsNextWord(m, Budget(maxLength), [], Budget(maxLength));
  }

  /** The run spends the whole budget exactly when, on the texts the run
      itself produces, no iteration stops. */
  lemma BudgetSpentIffNoStop<F>(m: Model<F>, maxLength: int)
    ensures var n := Budget(maxLength);
      var run := Greedy(m, n, [], n);
      run.stop == BudgetSpent <==>
        forall i :: 0 <= i < n && i <= |run.words| ==>
          NextWord(m, n, RunningText(run.words[..i])).Append?
  {
    var n := Budget(maxLength);
    var run := Greedy(m, n, [], n);
    GreedyFollowsNextWord(m, n, [], n);
    if run.stop != BudgetSpent {
      assert run.words[..|run.words|] == run.words;
      assert !NextWord(m, n, RunningText(run.words[..|run.words|])).Append?;
    }
  }

  /** The loop queries the model at most `max_length` times and appends at
      most `max_length` words, each a vocabulary word other than "endseq". */
  lemma DecodeBounds<F>(m: Model<F>, maxLength: int)
    ensures var n := Budget(maxLength);
      var run := Greedy(m, n, [], n);
      && run.calls <= n
      && |run.words| <= n
      && forall i :: 0 <= i < |run.words| ==>
           run.words[i] in m.indexWord.Values && run.words[i] != EndSeq
  {
    var n := Budget(maxLength);
    var run := Greedy(m, n, [], n);
    GreedyFollowsNextWord(m, n, [], n);
    forall i | 0 <= i < |run.words|
      ensures run.words[i] in m.indexWord.Values && run.words[i] != EndSeq
    {
      AppendedWordIsVocabulary(m, n, RunningText(run.words[..i]), run.words[i]);
    }
  }

  /** A word `NextWord` chooses is a vocabulary entry other than "endseq". */
  lemma AppendedWordIsVocabulary<F>(m: Model<F>, n: nat, text: string, w: string)
    requires NextWord(m, n, text) == Append(w)
    ensures w in m.indexWord.Values && w != EndSeq
  {
    var yhat := Scores(m, n, text);
    FirstMaxExists(yhat);
    var k :| IsFirstMax(yhat, k);
    assert Lookup(m.indexWord, k) == Append(w);
  }
}
