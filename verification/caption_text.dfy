/**
 What the clean-up `replace("startseq", "").replace("endseq", "").strip()`
 makes of the running text. For a vocabulary of ordinary words the caption
 is the generated words joined by single spaces; because `replace` is a
 single pass over the text, a word that hides a marker can leave a marker
 behind.
 */
module CaptionText {
  import opened PyStr
  import opened Decoding

  /** A word that the clean-up leaves intact: non-empty, no whitespace, and
      neither marker inside it. */
  ghost predicate CleanWord(w: string) {
    w != [] && NoSpaceIn(w) && !Contains(w, StartSeq) && !Contains(w, EndSeq)
  }

  /** Every word the decoder can append (anything but "endseq") is clean. */
  ghost predicate CleanVocabulary(indexWord: map<int, string>) {
    forall k :: k in indexWord && indexWord[k] != EndSeq ==> CleanWord(indexWord[k])
  }

  /** Both markers are non-empty and have no space in them. */
  lemma MarkersHaveNoSpace()
    ensures |StartSeq| > 0 && ' ' !in StartSeq
    ensures |EndSeq| > 0 && ' ' !in EndSeq
  {
  }

  /** Removing a pattern without spaces from a run of spaced words that do
      not contain it changes nothing: such a pattern can only sit inside
      one word. */
  lemma {:induction false} RemoveMarkerKeepsSpaced(ws: seq<string>, p: string)
    requires |p| > 0 && ' ' !in p
    requires forall i :: 0 <= i < |ws| ==> !Contains(ws[i], p)
    ensures RemoveAll(Spaced(ws), p) == Spaced(ws)
    decreases |ws|
  {
    if ws != [] {
      var w, tail := ws[0], Spaced(ws[1..]);
      assert Spaced(ws) == " " + (w + tail);
      RemoveMarkerKeepsSpaced(ws[1..], p);
      SpacedStartsWithSpace(ws[1..]);
      RemoveAllKeepsCleanWord(w, tail, p);
      assert p[0] != ' ';
      RemoveAllSkipsFront(" ", w + tail, p);
    } else {
      assert RemoveAll([], p) == [];
    }
  }

  /** Spaced words are empty or start with a space. */
  lemma SpacedStartsWithSpace(ws: seq<string>)
    ensures Spaced(ws) == [] || Spaced(ws)[0] == ' '
  {
  }

  /** Joined clean words start and end with a non-space character. */
  lemma JoinEdgeFree(ws: seq<string>)
    requires forall i :: 0 <= i < |ws| ==> CleanWord(ws[i])
    ensures NoEdgeSpace(Join(ws))
  {
    if ws != [] {
      var j := Join(ws);
      assert j[0] == ws[0][0];
      var last := ws[|ws| - 1];
      if |ws| == 1 {
        assert j == ws[0];
      } else {
        var rest := ws[1..];
        var init := rest[..|rest| - 1];
        SpacedSnoc(init, last);
        assert init + [last] == rest;
        assert j[|j| - 1] == last[|last| - 1];
      }
    }
  }

  /** Both removals leave only the spaced words of clean words. */
  lemma MarkersRemoved(ws: seq<string>)
    requires forall i :: 0 <= i < |ws| ==> CleanWord(ws[i])
    ensures RemoveAll(RemoveAll(RunningText(ws), StartSeq), EndSeq) == Spaced(ws)
  {
    ErasedKeepsCleanWords(ws);
    MarkerFreeRemovals(ws);
  }

  /** Clean words are never the start marker, so erasing it keeps them all. */
  lemma ErasedKeepsCleanWords(ws: seq<string>)
    requires forall i :: 0 <= i < |ws| ==> CleanWord(ws[i])
    ensures Erased(ws, StartSeq) == ws
  {
    assert OccursAt(StartSeq, StartSeq, 0);
  }

  /** Stripping the spaced words drops just the leading space when the
      joined words have no edge whitespace. */
  lemma StripSpaced(ws: seq<string>)
    requires NoEdgeSpace(Join(ws))
    ensures Strip(Spaced(ws)) == Join(ws)
  {
    if ws == [] {
      StripKeepsEdgeFree([]);
    } else {
      StripSpacedNonEmpty(ws);
    }
  }

  /** The non-empty case: the spaced words are one space and the joined words. */
  lemma StripSpacedNonEmpty(ws: seq<string>)
    requires ws != [] && NoEdgeSpace(Join(ws))
    ensures Strip(Spaced(ws)) == Join(ws)
  {
    SpacedIsSpaceJoin(ws);
    StripOneSpace(Join(ws));
  }

  lemma SpacedIsSpaceJoin(ws: seq<string>)
    requires ws != []
    ensures Spaced(ws) == " " + Join(ws)
  {
  }

  /** For clean words the caption is exactly the words joined by single
      spaces. */
  lemma CaptionOfCleanWords(ws: seq<string>)
    requires forall i :: 0 <= i < |ws| ==> CleanWord(ws[i])
    ensures Clean(RunningText(ws)) == Join(ws)
  {
    MarkersRemoved(ws);
    JoinEdgeFree(ws);
    StripSpaced(ws);
  }

  /** A pattern without spaces that no word contains is not in their
      spaced form either. */
  lemma NoPatternInSpaced(ws: seq<string>, p: string)
    requires |p| > 0 && ' ' !in p
    requires forall i :: 0 <= i < |ws| ==> !Contains(ws[i], p)
    ensures !Contains(Spaced(ws), p)
  {
    RemoveMarkerKeepsSpaced(ws, p);
    RemoveAllUnchangedIff(Spaced(ws), p);
  }

  /** ... nor in the words joined by single spaces. */
  lemma NoPatternInJoin(ws: seq<string>, p: string)
    requires |p| > 0 && ' ' !in p
    requires forall i :: 0 <= i < |ws| ==> !Contains(ws[i], p)
    ensures !Contains(Join(ws), p)
  {
    if ws == [] {
      assert !OccursAt(Join(ws), p, 0);
    } else {
      NoPatternInSpaced(ws, p);
      var s := Spaced(ws);
      assert s[1..] == Join(ws);
      NoOccurrenceInTail(s, p);
    }
  }

  /** For clean words no marker survives in the caption. */
  lemma CaptionOfCleanWordsHasNoMarker(ws: seq<string>, p: string)
    requires forall i :: 0 <= i < |ws| ==> CleanWord(ws[i])
    requires p == StartSeq || p == EndSeq
    ensures !Contains(Clean(RunningText(ws)), p)
  {
    CaptionOfMarkerFreeWords(ws);
  }

  /** With a clean vocabulary the caption is the generated words joined by
      single spaces, and it holds no marker. */
  lemma CleanVocabularyCaption<F>(m: Model<F>, maxLength: int)
    requires CleanVocabulary(m.indexWord)
    ensures var n := Budget(maxLength);
      var run := Greedy(m, n, [], n);
      Decode(m, maxLength) ==
        (if run.stop == EmptyScores then ArgmaxOfEmpty else Captioned(Join(run.words)))
    ensures Decode(m, maxLength).Captioned? ==>
      !Contains(Decode(m, maxLength).caption, StartSeq)
      && !Contains(Decode(m, maxLength).caption, EndSeq)
  {
    var n := Budget(maxLength);
    var run := Greedy(m, n, [], n);
    GreedyFollowsNextWord(m, n, [], n);
    forall i | 0 <= i < |run.words|
      ensures CleanWord(run.words[i])
    {
      AppendedWordIsVocabulary(m, n, RunningText(run.words[..i]), run.words[i]);
    }
    CaptionOfCleanWords(run.words);
    CaptionOfCleanWordsHasNoMarker(run.words, StartSeq);
    CaptionOfCleanWordsHasNoMarker(run.words, EndSeq);
  }

  /** A word the clean-up cannot turn into a marker: one with neither marker
      inside it (whatever whitespace it holds, even the empty word), or the
      start marker itself, which the first removal deletes whole. The markers
      hold no space, so none can straddle the space between two words. */
  ghost predicate MarkerFreeWord(w: string) {
    w == StartSeq || (!Contains(w, StartSeq) && !Contains(w, EndSeq))
  }

  /** Every word the decoder can append is marker-free. A tokenizer fitted on
      "startseq ... endseq" captions maps an id to each marker, and such a
      vocabulary qualifies. */
  ghost predicate MarkerFreeVocabulary(indexWord: map<int, string>) {
    forall k :: k in indexWord && indexWord[k] != EndSeq ==> MarkerFreeWord(indexWord[k])
  }

  /** The words with every word equal to `p` replaced by the empty word. */
  function Erased(ws: seq<string>, p: string): seq<string> {
    seq(|ws|, i requires 0 <= i < |ws| => if ws[i] == p then "" else ws[i])
  }

  /** Removing a space-free pattern from spaced words, each of which either is
      the pattern or does not contain it, empties exactly the words equal to
      the pattern and keeps their spaces. */
  lemma {:induction false} RemovePatternWords(ws: seq<string>, p: string)
    requires |p| > 0 && ' ' !in p
    requires forall i :: 0 <= i < |ws| ==> ws[i] == p || !Contains(ws[i], p)
    ensures RemoveAll(Spaced(ws), p) == Spaced(Erased(ws, p))
    decreases |ws|
  {
    var e := Erased(ws, p);
    if ws == [] {
      assert RemoveAll([], p) == [];
      assert e == [];
    } else {
      var w, tail := ws[0], Spaced(ws[1..]);
      assert Spaced(ws) == " " + (w + tail);
      assert e[1..] == Erased(ws[1..], p);
      assert Spaced(e) == " " + e[0] + Spaced(e[1..]);
      RemovePatternWords(ws[1..], p);
      SpacedStartsWithSpace(ws[1..]);
      RemoveSpacedWord(w, tail, p);
    }
  }

  /** One spaced word: it goes if it is the pattern, and stays otherwise. */
  lemma RemoveSpacedWord(w: string, tail: string, p: string)
    requires |p| > 0 && ' ' !in p
    requires w == p || !Contains(w, p)
    requires tail == [] || tail[0] == ' '
    ensures RemoveAll(" " + (w + tail), p) ==
      " " + (if w == p then "" else w) + RemoveAll(tail, p)
  {
    assert p[0] != ' ';
    RemoveAllSkipsFront(" ", w + tail, p);
    if w == p {
      RemoveAllLeadingPattern(p, tail);
      assert " " + "" == " ";
    } else {
      RemoveAllKeepsCleanWord(w, tail, p);
      assert " " + (w + RemoveAll(tail, p)) == " " + w + RemoveAll(tail, p);
    }
  }

  /** Once the start-marker words are emptied, no word holds a marker. */
  lemma ErasedWordsLackMarkers(ws: seq<string>)
    requires forall i :: 0 <= i < |ws| ==> MarkerFreeWord(ws[i])
    ensures forall i :: 0 <= i < |ws| ==>
      !Contains(Erased(ws, StartSeq)[i], StartSeq) && !Contains(Erased(ws, StartSeq)[i], EndSeq)
  {
    var e := Erased(ws, StartSeq);
    forall i | 0 <= i < |ws|
      ensures !Contains(e[i], StartSeq) && !Contains(e[i], EndSeq)
    {
      if ws[i] == StartSeq {
        NoPatternInShortText(e[i], StartSeq);
        NoPatternInShortText(e[i], EndSeq);
      }
    }
  }

  /** Both removals applied to marker-free words: the leading "startseq" and
      every appended "startseq" word go, everything else stays. */
  lemma MarkerFreeRemovals(ws: seq<string>)
    requires forall i :: 0 <= i < |ws| ==> MarkerFreeWord(ws[i])
    ensures RemoveAll(RemoveAll(RunningText(ws), StartSeq), EndSeq) == Spaced(Erased(ws, StartSeq))
  {
    MarkersHaveNoSpace();
    RemoveAllLeadingPattern(StartSeq, Spaced(ws));
    RemovePatternWords(ws, StartSeq);
    ErasedWordsLackMarkers(ws);
    RemoveMarkerKeepsSpaced(Erased(ws, StartSeq), EndSeq);
  }

  /** For marker-free words the caption is the stripped spaced words with
      every appended "startseq" emptied (which leaves a double space inside
      the caption), and neither marker occurs in it. */
  lemma CaptionOfMarkerFreeWords(ws: seq<string>)
    requires forall i :: 0 <= i < |ws| ==> MarkerFreeWord(ws[i])
    ensures Clean(RunningText(ws)) == Strip(Spaced(Erased(ws, StartSeq)))
    ensures !Contains(Clean(RunningText(ws)), StartSeq)
    ensures !Contains(Clean(RunningText(ws)), EndSeq)
  {
    var e := Erased(ws, StartSeq);
    MarkerFreeRemovals(ws);
    MarkersHaveNoSpace();
    ErasedWordsLackMarkers(ws);
    NoPatternInSpaced(e, StartSeq);
    NoPatternInSpaced(e, EndSeq);
    NoPatternInStrip(Spaced(e), StartSeq);
    NoPatternInStrip(Spaced(e), EndSeq);
  }

  /** With a vocabulary whose words are "startseq" or hold neither marker —
      what a tokenizer fitted on marked captions gives — the caption is the stripped running
      text without the markers, and it holds neither marker. */
  lemma MarkerFreeVocabularyCaption<F>(m: Model<F>, maxLength: int)
    requires MarkerFreeVocabulary(m.indexWord)
    ensures var n := Budget(maxLength);
      var run := Greedy(m, n, [], n);
      Decode(m, maxLength) ==
        (if run.stop == EmptyScores then ArgmaxOfEmpty
         else Captioned(Strip(Spaced(Erased(run.words, StartSeq)))))
    ensures Decode(m, maxLength).Captioned? ==>
      !Contains(Decode(m, maxLength).caption, StartSeq)
      && !Contains(Decode(m, maxLength).caption, EndSeq)
  {
    var n := Budget(maxLength);
    var run := Greedy(m, n, [], n);
    GreedyFollowsNextWord(m, n, [], n);
    forall i | 0 <= i < |run.words|
      ensures MarkerFreeWord(run.words[i])
    {
      AppendedWordIsVocabulary(m, n, RunningText(run.words[..i]), run.words[i]);
    }
    CaptionOfMarkerFreeWords(run.words);
    DecodeOfRun(m, maxLength, run);
  }

  /** The removal is one pass per marker, so a word that hides a marker
      can leave one in the caption: the word "startendseqseq" has no
      "startseq" in it, but dropping its "endseq" joins the pieces around
      it into one. */
  lemma MarkerCanSurviveCleanUp(w: string)
    requires w == "startendseqseq"
    ensures Clean(RunningText([w])) == StartSeq
    ensures Contains(Clean(RunningText([w])), StartSeq)
  {
    MarkerHidingWordRemovals(w);
    StartMarkerStrips();
    assert OccursAt(StartSeq, StartSeq, 0);
  }

  /** The two removals turn "startseq startendseqseq" into " startseq". */
  lemma MarkerHidingWordRemovals(w: string)
    requires w == "startendseqseq"
    ensures RemoveAll(RemoveAll(RunningText([w]), StartSeq), EndSeq) == " " + StartSeq
  {
    var t := " " + w;
    assert t == " startendseqseq";
    StartMarkerNotIn(t);
    EndMarkerRemovalJoins(t);
    SpacedSingle(w);
    RemoveAllLeadingPattern(StartSeq, t);
    AbsentPatternKept(t, StartSeq);
  }

  /** One word spaced is a space and the word. */
  lemma SpacedSingle(w: string)
    ensures Spaced([w]) == " " + w
  {
    assert [w][1..] == [];
    assert " " + w + "" == " " + w;
  }

  /** Stripping " startseq" leaves the marker. */
  lemma StartMarkerStrips()
    ensures Strip(" " + StartSeq) == StartSeq
  {
    StripOneSpace(StartSeq);
  }

  /** Only position 1 holds an 's' among the places "startseq" could start,
      and there the sixth character is an 'e'. */
  lemma StartMarkerNotIn(t: string)
    requires t == " startendseqseq"
    ensures !Contains(t, StartSeq)
  {
    forall j | 0 <= j
      ensures !OccursAt(t, StartSeq, j)
    {
      if j == 0 { MismatchAt(t, StartSeq, 0, 0); }
      else if j == 1 { MismatchAt(t, StartSeq, 1, 5); }
      else if j == 2 { MismatchAt(t, StartSeq, 2, 0); }
      else if j == 3 { MismatchAt(t, StartSeq, 3, 0); }
      else if j == 4 { MismatchAt(t, StartSeq, 4, 0); }
      else if j == 5 { MismatchAt(t, StartSeq, 5, 0); }
      else if j == 6 { MismatchAt(t, StartSeq, 6, 0); }
      else if j == 7 { MismatchAt(t, StartSeq, 7, 0); }
    }
  }

  /** One differing character rules a position out. */
  lemma MismatchAt(t: string, p: string, j: int, k: int)
    requires 0 <= j && 0 <= k < |p| && j + k < |t| && t[j + k] != p[k]
    ensures !OccursAt(t, p, j)
  {
    if j + |p| <= |t| {
      assert t[j..j + |p|][k] == t[j + k];
    }
  }

  /** " start" + "endseq" + "seq": the scan keeps " start", drops the
      marker, and keeps "seq". */
  lemma EndMarkerRemovalJoins(t: string)
    requires t == " startendseqseq"
    ensures RemoveAll(t, EndSeq) == " " + StartSeq
  {
    var front, back := " start", "seq";
    assert front + back == " " + StartSeq;
    assert t == front + (EndSeq + back);
    assert EndSeq[0] !in front;
    RemoveAllSkipsFront(front, EndSeq + back, EndSeq);
    RemoveAllLeadingPattern(EndSeq, back);
    ShortTextKept(back, EndSeq);
  }
}
