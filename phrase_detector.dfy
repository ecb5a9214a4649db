/**
 * Phrase segmentation for streaming speech synthesis (server/utils/phrase_detector.py).
 *
 * `DetectPhraseBoundary` decides, from a text prefix alone, whether a speakable
 * phrase has ended and where; `ExtractPhrase` splits the text into the phrase and
 * the rest.  As in the source, word positions are measured on the single-space
 * form `' '.join(text.split())` and then used as indices into the raw text.
 */
module PhraseDetector {
  import opened PyStr
  import opened Wrappers

  /** `(is_boundary, boundary_position)` */
  datatype Boundary = Boundary(found: bool, pos: nat)

  /** The default `min_words` and `max_words` of lines 9 and 75. */
  const DefaultMinWords: nat := 3
  const DefaultMaxWords: int := 8

  /** The words after which a phrase may end (line 58). */
  const PhraseEndWords: seq<string> := ["and", "or", "but", "so", "then", "also", "however", "therefore"]

  predicate IsPauseMark(c: char) {
    c in ".,;:!?"
  }

  predicate IsSentenceMark(c: char) {
    c in ".!?"
  }

  predicate IsClauseMark(c: char) {
    c in ",;:"
  }

  function Max3(a: int, b: int, c: int): int {
    Max(Max(a, b), c)
  }

  /** `re.search(r'[.,;:!?]\s*$', t)`: once trailing whitespace is dropped, `t`
      ends in one of `.,;:!?`. */
  predicate EndsWithMark(t: string) {
    var u := RStrip(t);
    u != [] && IsPauseMark(u[|u| - 1])
  }

  /** The regex read literally: some mark is followed by whitespace only. */
  ghost predicate MarkThenBlank(t: string) {
    exists j :: 0 <= j < |t| && IsPauseMark(t[j]) && IsBlank(t[j + 1..])
  }

  lemma EndsWithMarkIsRegex(t: string)
    ensures EndsWithMark(t) <==> MarkThenBlank(t)
  {
    if EndsWithMark(t) {
      MarkBeforeTrailingSpace(t);
    }
    if MarkThenBlank(t) {
      var j :| 0 <= j < |t| && IsPauseMark(t[j]) && IsBlank(t[j + 1..]);
      MarkThenBlankIsEnd(t, j);
    }
  }

  lemma MarkBeforeTrailingSpace(t: string)
    requires EndsWithMark(t)
    ensures MarkThenBlank(t)
  {
    var n := TrailingSpaces(t);
    var j := |t| - n - 1;
    assert t[j + 1..] == t[|t| - n..];
    assert IsPauseMark(t[j]);
  }

  lemma MarkThenBlankIsEnd(t: string, j: nat)
    requires j < |t| && IsPauseMark(t[j]) && IsBlank(t[j + 1..])
    ensures EndsWithMark(t)
  {
    var n := TrailingSpaces(t);
    assert !IsSpace(t[j]);
    if n > |t| - 1 - j {
      assert false;
    } else if n < |t| - 1 - j {
      assert false;
    }
    assert RStrip(t) == t[..j + 1];
  }

  // ------------------------------------------------- rule 1: forced break

  /** Length of `' '.join(words[:k])`. */
  function JoinedLen(ws: seq<string>, k: int): nat {
    |Join(Take(ws, k))|
  }

  /** The raw text that line 35 inspects before word `k`: up to ten characters
      ending where the single-space form of the first `k` words ends. */
  function WindowBefore(text: string, ws: seq<string>, k: int): string {
    var wordBoundary := JoinedLen(ws, k);
    var searchStart := Max(0, wordBoundary - 10);
    var searchText := Slice(text, searchStart, wordBoundary + 10);
    Take(searchText, wordBoundary - searchStart)
  }

  predicate BreaksBefore(text: string, ws: seq<string>, k: int) {
    EndsWithMark(WindowBefore(text, ws, k))
  }

  /** A loop `for k in range(i, lo - 1, -1)` that returns the first `k` passing
      `hit`: the largest such index in `[lo, i]`, if any. */
  function LastHit(hit: int -> bool, lo: nat, i: int): (r: Option<nat>)
    ensures r.Some? ==> lo <= r.value <= i && hit(r.value)
    ensures r.Some? ==> forall k :: r.value < k <= i ==> !hit(k)
    ensures r.None? ==> forall k :: lo <= k <= i ==> !hit(k)
    decreases i + 1 - lo
  {
    if i < lo then None
    else if hit(i) then Some(i)
    else LastHit(hit, lo, i - 1)
  }

  /** The loop of lines 27-36, from word index `i` down to `minWords`: the
      first (largest) index whose window ends in a mark. */
  function ForcedBreakAt(text: string, ws: seq<string>, minWords: nat, i: int): (r: Option<nat>)
    requires i < |ws|
    ensures r.Some? ==> minWords <= r.value <= i && BreaksBefore(text, ws, r.value)
    ensures r.Some? ==> forall k :: r.value < k <= i ==> !BreaksBefore(text, ws, k)
    ensures r.None? ==> forall k :: minWords <= k <= i ==> !BreaksBefore(text, ws, k)
  {
    var hit := k => BreaksBefore(text, ws, k);
    assert forall k :: hit(k) == BreaksBefore(text, ws, k);
    LastHit(hit, minWords, i)
  }

  /** Lines 24-36: the forced-break word index, if that rule fires. */
  function ForcedBreak(text: string, minWords: nat, maxWords: int): (r: Option<nat>)
    ensures r.Some? ==> maxWords <= |Words(text)| && minWords <= r.value < maxWords
    ensures r.Some? ==> BreaksBefore(text, Words(text), r.value)
    ensures r.Some? ==> forall k :: r.value < k < maxWords ==> !BreaksBefore(text, Words(text), k)
    ensures r.None? ==> |Words(text)| < maxWords || forall k :: minWords <= k < maxWords ==> !BreaksBefore(text, Words(text), k)
  {
    var ws := Words(text);
    if |ws| >= maxWords then ForcedBreakAt(text, ws, minWords, maxWords - 1) else None
  }

  // ------------------------------------ rules 2 and 3: punctuation marks

  /** `max(text.rfind('.'), text.rfind('!'), text.rfind('?'))`: the index of the
      rightmost sentence mark, or -1. */
  function LastSentenceMark(text: string): (e: int)
    ensures -1 <= e < |text|
    ensures e >= 0 ==> IsSentenceMark(text[e])
    ensures forall j :: e < j < |text| ==> !IsSentenceMark(text[j])
  {
    Max3(RFind(text, '.'), RFind(text, '!'), RFind(text, '?'))
  }

  /** `max(text.rfind(','), text.rfind(';'), text.rfind(':'))`: the index of the
      rightmost clause mark, or -1. */
  function LastClauseMark(text: string): (e: int)
    ensures -1 <= e < |text|
    ensures e >= 0 ==> IsClauseMark(text[e])
    ensures forall j :: e < j < |text| ==> !IsClauseMark(text[j])
  {
    Max3(RFind(text, ','), RFind(text, ';'), RFind(text, ':'))
  }

  /** Lines 44 and 54: the mark is not at index 0 and at least `minWords`
      words precede it. */
  predicate MarkRuleFires(text: string, markPos: int, minWords: nat) {
    markPos > 0 && |Words(Take(text, markPos))| >= minWords
  }

  // ---------------------------------------------- rule 4: conjunctions

  predicate IsPhraseEndWord(w: string) {
    Lower(w) in PhraseEndWords
  }

  /** The test of lines 60-62 for word index `k`. */
  predicate ConjunctionHit(ws: seq<string>, k: int) {
    0 <= k < |ws| && IsPhraseEndWord(ws[k]) && JoinedLen(ws, k + 1) > 0
  }

  /** The loop of lines 59-63, from word index `i` down to `minWords`: the first
      (largest) index holding a phrase-ending word. */
  function ConjunctionAt(ws: seq<string>, minWords: nat, i: int): (r: Option<nat>)
    requires i < |ws|
    ensures r.Some? ==> minWords <= r.value <= i && ConjunctionHit(ws, r.value)
    ensures r.Some? ==> forall k :: r.value < k <= i ==> !ConjunctionHit(ws, k)
    ensures r.None? ==> forall k :: minWords <= k <= i ==> !ConjunctionHit(ws, k)
  {
    var hit := k => ConjunctionHit(ws, k);
    assert forall k :: hit(k) == ConjunctionHit(ws, k);
    LastHit(hit, minWords, i)
  }

  /** The `boundary > 0` test of line 62 never fails: words are non-empty. */
  lemma ConjunctionHitIsWordTest(ws: seq<string>, k: int)
    requires AllWords(ws) && 0 <= k < |ws|
    ensures ConjunctionHit(ws, k) <==> IsPhraseEndWord(ws[k])
  {
    JoinNonEmpty(ws[..k + 1]);
  }

  // ------------------------------------------------------ the detector

  /** `detect_phrase_boundary(text, min_words, max_words)` (lines 9-72). */
  function DetectPhraseBoundary(text: string, minWords: nat, maxWords: int): (b: Boundary)
    ensures |Words(text)| >= minWords ==> b.found
    ensures !b.found ==> b == Boundary(false, 0)
  {
    var forced := ForcedBreak(text, minWords, maxWords);
    if forced.Some? then Boundary(true, JoinedLen(Words(text), forced.value) + 1)
    else
      var sentenceEnd := LastSentenceMark(text);
      if MarkRuleFires(text, sentenceEnd, minWords) then Boundary(true, sentenceEnd + 1)
      else
        var pausePos := LastClauseMark(text);
        if MarkRuleFires(text, pausePos, minWords) then Boundary(true, pausePos + 1)
        else WordRules(Words(text), minWords)
  }

  /** Lines 57-72, reached when no punctuation rule fired: the conjunction rule,
      then the fallback break after at most six words. */
  function WordRules(ws: seq<string>, minWords: nat): (b: Boundary)
    ensures b.found <==> |ws| >= minWords
    ensures !b.found ==> b == Boundary(false, 0)
  {
    var conj := ConjunctionAt(ws, minWords, |ws| - 1);
    if conj.Some? then Boundary(true, JoinedLen(ws, conj.value + 1))
    else if |ws| >= minWords then
      var preferredLength := if 6 < |ws| then 6 else |ws|;
      Boundary(true, JoinedLen(ws, preferredLength))
    else Boundary(false, 0)
  }

  /** A boundary is found exactly when the text has at least `minWords` words;
      otherwise the answer is `(False, 0)`. */
  lemma DetectFoundIffEnoughWords(text: string, minWords: nat, maxWords: int)
    ensures DetectPhraseBoundary(text, minWords, maxWords).found <==> |Words(text)| >= minWords
    ensures (!DetectPhraseBoundary(text, minWords, maxWords).found
             ==> DetectPhraseBoundary(text, minWords, maxWords) == Boundary(false, 0))
  {
    if |Words(text)| < minWords {
      NoForcedWithFewWords(text, minWords, maxWords);
      NoMarkRuleWithFewWords(text, LastSentenceMark(text), minWords);
      NoMarkRuleWithFewWords(text, LastClauseMark(text), minWords);
    }
  }

  lemma NoForcedWithFewWords(text: string, minWords: nat, maxWords: int)
    requires |Words(text)| < minWords
    ensures ForcedBreak(text, minWords, maxWords).None?
  {
    if |Words(text)| >= maxWords {
      assert maxWords - 1 < minWords;
    }
  }

  lemma NoMarkRuleWithFewWords(text: string, markPos: int, minWords: nat)
    requires -1 <= markPos < |text|
    requires |Words(text)| < minWords
    ensures !MarkRuleFires(text, markPos, minWords)
  {
    if markPos > 0 {
      assert Take(text, markPos) == text[..markPos];
      WordsPrefixFewer(text, markPos);
    }
  }

  /** The position never exceeds the text, and is positive once `minWords >= 1`. */
  lemma DetectPositionInText(text: string, minWords: nat, maxWords: int)
    ensures DetectPhraseBoundary(text, minWords, maxWords).pos <= |text|
    ensures (DetectPhraseBoundary(text, minWords, maxWords).found && minWords >= 1
             ==> DetectPhraseBoundary(text, minWords, maxWords).pos > 0)
  {
    if ForcedBreak(text, minWords, maxWords).Some? {
      ForcedPosition(text, minWords, maxWords);
    } else {
      WordRulesWithinJoin(Words(text), minWords);
      JoinWordsFits(text);
    }
  }

  /** The forced break falls before a later word, inside the text. */
  lemma ForcedPosition(text: string, minWords: nat, maxWords: int)
    requires ForcedBreak(text, minWords, maxWords).Some?
    ensures var k := ForcedBreak(text, minWords, maxWords).value;
            minWords <= k < |Words(text)| && JoinedLen(Words(text), k) + 1 <= |text|
  {
    var ws := Words(text);
    var k := ForcedBreak(text, minWords, maxWords).value;
    assert Take(ws, k) == ws[..k];
    JoinPrefixFits(text, k);
  }

  /** The word rules cut within the single-space form, after its first word
      once `minWords >= 1`. */
  lemma WordRulesWithinJoin(ws: seq<string>, minWords: nat)
    requires AllWords(ws)
    ensures WordRules(ws, minWords).pos <= |Join(ws)|
    ensures WordRules(ws, minWords).found && minWords >= 1 ==> WordRules(ws, minWords).pos > 0
  {
    var conj := ConjunctionAt(ws, minWords, |ws| - 1);
    var p := if conj.Some? then conj.value + 1 else if 6 < |ws| then 6 else |ws|;
    if conj.Some? || |ws| >= minWords {
      assert WordRules(ws, minWords).pos == JoinedLen(ws, p);
      assert Take(ws, p) == ws[..p];
      JoinPrefixShorter(ws, p);
      if p >= 1 {
        JoinNonEmpty(ws[..p]);
      }
    }
  }

  /** Rules 2 over 3: when no forced break fires and at least `minWords` words
      precede the rightmost `.`/`!`/`?` (not at index 0), the position is just
      past that mark, whatever clause marks follow it. */
  lemma SentenceMarkWins(text: string, minWords: nat, maxWords: int)
    requires ForcedBreak(text, minWords, maxWords).None?
    requires MarkRuleFires(text, LastSentenceMark(text), minWords)
    ensures DetectPhraseBoundary(text, minWords, maxWords) == Boundary(true, LastSentenceMark(text) + 1)
    ensures IsSentenceMark(text[DetectPhraseBoundary(text, minWords, maxWords).pos - 1])
    ensures forall j :: DetectPhraseBoundary(text, minWords, maxWords).pos <= j < |text|
              ==> !IsSentenceMark(text[j])
  {
  }

  /** Rule 4: when rules 1-3 do not fire and word `k` (at index `minWords` or
      later) is the last of the text's words that is one of the eight
      (case-insensitively), the position is the single-space length through
      word `k`. */
  lemma ConjunctionRule(text: string, minWords: nat, maxWords: int, k: nat)
    requires ForcedBreak(text, minWords, maxWords).None?
    requires !MarkRuleFires(text, LastSentenceMark(text), minWords)
    requires !MarkRuleFires(text, LastClauseMark(text), minWords)
    requires minWords <= k < |Words(text)| && IsPhraseEndWord(Words(text)[k])
    requires forall j :: k < j < |Words(text)| ==> !IsPhraseEndWord(Words(text)[j])
    ensures DetectPhraseBoundary(text, minWords, maxWords) == Boundary(true, |Join(Words(text)[..k + 1])|)
  {
    var ws := Words(text);
    assert DetectPhraseBoundary(text, minWords, maxWords) == WordRules(ws, minWords);
    LastConjunctionWins(ws, minWords, k);
  }

  lemma LastConjunctionWins(ws: seq<string>, minWords: nat, k: nat)
    requires AllWords(ws)
    requires minWords <= k < |ws| && IsPhraseEndWord(ws[k])
    requires forall j :: k < j < |ws| ==> !IsPhraseEndWord(ws[j])
    ensures WordRules(ws, minWords) == Boundary(true, |Join(ws[..k + 1])|)
  {
    ConjunctionHitIsWordTest(ws, k);
    forall j | k < j < |ws| ensures !ConjunctionHit(ws, j) {
      ConjunctionHitIsWordTest(ws, j);
    }
    var conj := ConjunctionAt(ws, minWords, |ws| - 1);
    assert conj == Some(k);
    assert Take(ws, k + 1) == ws[..k + 1];
  }

  /** Rule 5: when rules 1-4 do not fire, the break comes after the first six
      words (or all of them, if fewer); with fewer than `minWords` words there is
      no boundary. */
  lemma FallbackRule(text: string, minWords: nat, maxWords: int)
    requires ForcedBreak(text, minWords, maxWords).None?
    requires !MarkRuleFires(text, LastSentenceMark(text), minWords)
    requires !MarkRuleFires(text, LastClauseMark(text), minWords)
    requires forall j :: minWords <= j < |Words(text)| ==> !IsPhraseEndWord(Words(text)[j])
    ensures var ws := Words(text);
            DetectPhraseBoundary(text, minWords, maxWords)
              == if |ws| >= minWords then Boundary(true, |Join(ws[..if 6 < |ws| then 6 else |ws|])|)
                 else Boundary(false, 0)
  {
    var ws := Words(text);
    forall j | minWords <= j < |ws| ensures !ConjunctionHit(ws, j) {
      ConjunctionHitIsWordTest(ws, j);
    }
    var p := if 6 < |ws| then 6 else |ws|;
    assert Take(ws, p) == ws[..p];
  }

  // ------------------------------------------------------- the splitter

  /** `extract_phrase(text, min_words, max_words)` (lines 75-107):
      `(phrase, remaining)`. */
  function ExtractPhrase(text: string, minWords: nat, maxWords: int): (string, string) {
    if IsBlank(text) then ("", "")
    else if BoundaryUsable(text, minWords, maxWords) then
      var pos := DetectPhraseBoundary(text, minWords, maxWords).pos;
      (Strip(Take(text, pos)), Strip(Drop(text, pos)))
    else
      var ws := Words(text);
      if |ws| >= minWords then (Join(Take(ws, maxWords)), Join(Drop(ws, maxWords)))
      else ("", text)
  }

  /** Lines 92-97: a positive boundary was found and the stripped text before it
      has at least `minWords` words. */
  predicate BoundaryUsable(text: string, minWords: nat, maxWords: int) {
    var b := DetectPhraseBoundary(text, minWords, maxWords);
    b.found && b.pos > 0 && |Words(Strip(Take(text, b.pos)))| >= minWords
  }

  /** Empty or whitespace-only text gives `("", "")`. */
  lemma ExtractBlank(text: string, minWords: nat, maxWords: int)
    requires IsBlank(text)
    ensures ExtractPhrase(text, minWords, maxWords) == ("", "")
  {
  }

  /** Text with fewer than `minWords` words is left whole: `("", text)`. */
  lemma ExtractTooFewWords(text: string, minWords: nat, maxWords: int)
    requires !IsBlank(text)
    requires |Words(text)| < minWords
    ensures ExtractPhrase(text, minWords, maxWords) == ("", text)
  {
    DetectFoundIffEnoughWords(text, minWords, maxWords);
  }

  /** Every non-empty phrase has at least `minWords` words. */
  lemma ExtractPhraseHasMinWords(text: string, minWords: nat, maxWords: int)
    requires minWords <= maxWords
    ensures var (phrase, _) := ExtractPhrase(text, minWords, maxWords);
            phrase == "" || |Words(phrase)| >= minWords
  {
    if !IsBlank(text) {
      var ws := Words(text);
      if !BoundaryUsable(text, minWords, maxWords) && |ws| >= minWords {
        var front := Take(ws, maxWords);
        assert AllWords(front);
        WordsOfJoin(front);
        assert |front| >= minWords;
      }
    }
  }

  /** Nothing but whitespace is lost or moved: with whitespace deleted,
      `phrase + remaining` is the text. */
  lemma ExtractKeepsCharacters(text: string, minWords: nat, maxWords: int)
    ensures var (phrase, remaining) := ExtractPhrase(text, minWords, maxWords);
            NoSpace(phrase + remaining) == NoSpace(text)
  {
    var (phrase, remaining) := ExtractPhrase(text, minWords, maxWords);
    NoSpaceAppend(phrase, remaining);
    if IsBlank(text) {
      NoSpaceBlank(text);
      return;
    }
    var pos := DetectPhraseBoundary(text, minWords, maxWords).pos;
    var ws := Words(text);
    if BoundaryUsable(text, minWords, maxWords) {
      NoSpaceStrip(Take(text, pos));
      NoSpaceStrip(Drop(text, pos));
      TakeDrop(text, pos);
      NoSpaceAppend(Take(text, pos), Drop(text, pos));
    } else if |ws| >= minWords {
      var front, back := Take(ws, maxWords), Drop(ws, maxWords);
      assert AllWords(front) && AllWords(back);
      NoSpaceJoin(front);
      NoSpaceJoin(back);
      TakeDrop(ws, maxWords);
      ConcatAppend(front, back);
      NoSpaceWords(text);
    } else {
      NoSpaceAppend("", text);
      assert "" + text == text;
    }
  }

  /** No whitespace at either end. */
  predicate Trimmed(s: string) {
    s == [] || (!IsSpace(s[0]) && !IsSpace(s[|s| - 1]))
  }

  /** Both parts come back without surrounding whitespace. */
  lemma ExtractTrimmed(text: string, minWords: nat, maxWords: int)
    ensures Trimmed(ExtractPhrase(text, minWords, maxWords).0)
    ensures ExtractPhrase(text, minWords, maxWords).1 != text ==> Trimmed(ExtractPhrase(text, minWords, maxWords).1)
  {
    if IsBlank(text) {
    } else if BoundaryUsable(text, minWords, maxWords) {
      var pos := DetectPhraseBoundary(text, minWords, maxWords).pos;
      StripIsTrimmed(Take(text, pos));
      StripIsTrimmed(Drop(text, pos));
    } else if |Words(text)| >= minWords {
      JoinEnds(Take(Words(text), maxWords));
      JoinEnds(Drop(Words(text), maxWords));
    }
  }

  lemma StripIsTrimmed(s: string)
    ensures Trimmed(Strip(s))
  {
  }

  /** The single-space form starts and ends with a non-whitespace character. */
  lemma {:induction false} JoinEnds(ws: seq<string>)
    requires AllWords(ws)
    ensures Trimmed(Join(ws))
  {
    if |ws| > 1 {
      JoinEnds(ws[1..]);
      JoinNonEmpty(ws[1..]);
    }
  }

  // ------------------------------------------- positions and the raw text

  /** Every `.,;:!?` is followed by whitespace or ends the text: the marks only
      ever close a word. */
  predicate MarksEndWords(s: string) {
    forall i :: 0 <= i < |s| - 1 && IsPauseMark(s[i]) ==> IsSpace(s[i + 1])
  }

  lemma MarksEndWordsSuffix(s: string, k: nat)
    requires k <= |s| && MarksEndWords(s)
    ensures MarksEndWords(s[k..])
  {
    forall i | 0 <= i < |s[k..]| - 1 && IsPauseMark(s[k..][i])
      ensures IsSpace(s[k..][i + 1])
    {
      assert s[k..][i] == s[k + i] && s[k..][i + 1] == s[k + i + 1];
    }
  }

  /** Each word of such a text has its marks only at its end. */
  lemma {:induction false} MarksEndEachWord(s: string)
    requires MarksEndWords(s)
    ensures forall k :: 0 <= k < |Words(s)| ==> MarksEndWords(Words(s)[k])
    decreases |s|
  {
    if s == [] {
    } else if IsSpace(s[0]) {
      MarksEndWordsSuffix(s, 1);
      MarksEndEachWord(s[1..]);
    } else {
      var n := TokenLen(s);
      MarksEndWordsSuffix(s, n);
      MarksEndEachWord(s[n..]);
      var w := s[..n];
      forall i | 0 <= i < |w| - 1 ensures !IsPauseMark(w[i]) {
        assert w[i] == s[i] && w[i + 1] == s[i + 1];
      }
      assert Words(s) == [w] + Words(s[n..]);
    }
  }

  /** Joining such words with single spaces keeps the marks at word ends. */
  lemma {:induction false} MarksEndJoin(ws: seq<string>)
    requires AllWords(ws)
    requires forall k :: 0 <= k < |ws| ==> MarksEndWords(ws[k])
    ensures MarksEndWords(Join(ws))
  {
    if |ws| > 1 {
      MarksEndJoin(ws[1..]);
      var w, rest := ws[0], Join(ws[1..]);
      var j := w + " " + rest;
      forall i | 0 <= i < |j| - 1 ensures IsPauseMark(j[i]) ==> IsSpace(j[i + 1]) {
        if i < |w| - 1 {
          assert j[i] == w[i] && j[i + 1] == w[i + 1];
        } else if i == |w| - 1 {
          assert j[i + 1] == ' ';
        } else if i == |w| {
          assert j[i] == ' ';
        } else {
          assert j[i] == rest[i - |w| - 1] && j[i + 1] == rest[i - |w|];
        }
      }
    }
  }

  /** In the single-space form, the character just past the first `k` words
      (`0 < k < |ws|`) is the separating space. */
  lemma JoinSeparator(ws: seq<string>, k: nat)
    requires 1 <= k < |ws|
    ensures JoinedLen(ws, k) < |Join(ws)| && Join(ws)[JoinedLen(ws, k)] == ' '
  {
    assert Take(ws, k) == ws[..k];
    assert ws == ws[..k] + ws[k..];
    JoinAppend(ws[..k], ws[k..]);
  }

  lemma JoinedLenAll(ws: seq<string>)
    ensures JoinedLen(ws, |ws|) == |Join(ws)|
  {
    assert Take(ws, |ws|) == ws;
  }

  /** A cut at `pos` that leaves both parts non-empty or ends the text, and sits
      next to a space: it falls between two words. */
  predicate CutsBetween(n: string, pos: int) {
    0 < pos <= |n| && (pos == |n| || IsSpace(n[pos - 1]) || IsSpace(n[pos]))
  }

  /** On single-spaced text whose marks end words, every rule cuts next to a
      space or at the end: never inside a word. */
  lemma DetectCutsBetweenWords(ws: seq<string>, minWords: nat, maxWords: int)
    requires AllWords(ws) && minWords >= 1
    requires MarksEndWords(Join(ws))
    ensures (DetectPhraseBoundary(Join(ws), minWords, maxWords).found
             ==> CutsBetween(Join(ws), DetectPhraseBoundary(Join(ws), minWords, maxWords).pos))
  {
    var n := Join(ws);
    WordsOfJoin(ws);
    if ForcedBreak(n, minWords, maxWords).Some? {
      ForcedCut(ws, minWords, maxWords);
    } else if MarkRuleFires(n, LastSentenceMark(n), minWords) {
      MarkCut(n, LastSentenceMark(n));
    } else if MarkRuleFires(n, LastClauseMark(n), minWords) {
      MarkCut(n, LastClauseMark(n));
    } else {
      WordRulesCut(ws, minWords);
    }
  }

  lemma ForcedCut(ws: seq<string>, minWords: nat, maxWords: int)
    requires AllWords(ws) && minWords >= 1
    requires ForcedBreak(Join(ws), minWords, maxWords).Some?
    ensures CutsBetween(Join(ws), JoinedLen(ws, ForcedBreak(Join(ws), minWords, maxWords).value) + 1)
  {
    WordsOfJoin(ws);
    ForcedPosition(Join(ws), minWords, maxWords);
    JoinSeparator(ws, ForcedBreak(Join(ws), minWords, maxWords).value);
  }

  lemma MarkCut(n: string, e: int)
    requires MarksEndWords(n)
    requires 0 <= e < |n| && (IsSentenceMark(n[e]) || IsClauseMark(n[e]))
    ensures CutsBetween(n, e + 1)
  {
    assert IsPauseMark(n[e]);
  }

  lemma WordRulesCut(ws: seq<string>, minWords: nat)
    requires AllWords(ws) && minWords >= 1
    ensures WordRules(ws, minWords).found ==> CutsBetween(Join(ws), WordRules(ws, minWords).pos)
  {
    var conj := ConjunctionAt(ws, minWords, |ws| - 1);
    var p := if conj.Some? then conj.value + 1 else if 6 < |ws| then 6 else |ws|;
    if conj.Some? || |ws| >= minWords {
      assert WordRules(ws, minWords).pos == JoinedLen(ws, p);
      assert Take(ws, p) == ws[..p];
      JoinNonEmpty(ws[..p]);
      if p < |ws| {
        JoinSeparator(ws, p);
      } else {
        JoinedLenAll(ws);
      }
    }
  }

  /** As written, positions measured on the single-space form cut the raw text:
      with the default word limits, one leading space moves the fallback cut
      one character into the last word, and `"ef"` comes back as `"e"` and `"f"`. */
  lemma ExtractPhraseSplitsWord()
    ensures ExtractPhrase(" ab cd ef", DefaultMinWords, DefaultMaxWords) == ("ab cd e", "f")
    ensures Words("ab cd e") + Words("f") != Words(" ab cd ef")
  {
    SplitsWordUsable();
    SplitsWordResult();
    SplitsWordWordsDiffer();
  }

  lemma SplitsWordUsable()
    ensures BoundaryUsable(" ab cd ef", 3, 8)
  {
    SplitsWordDetect();
    SplitsWordPhrase();
    SplitsWordFront();
  }

  lemma SplitsWordResult()
    requires BoundaryUsable(" ab cd ef", 3, 8)
    ensures ExtractPhrase(" ab cd ef", 3, 8) == ("ab cd e", "f")
  {
    SplitsWordDetect();
    SplitsWordPhrase();
    SplitsWordRest();
  }

  lemma SplitsWordWordsDiffer()
    ensures Words("ab cd e") + Words("f") != Words(" ab cd ef")
  {
    SplitsWordWords();
    SplitsWordFront();
    SplitsWordLast();
  }

  lemma SplitsWordLast()
    ensures Words("f") == ["f"]
  {
    assert Join(["f"]) == "f";
    WordsOfJoin(["f"]);
  }

  lemma SplitsWordPhrase()
    ensures Strip(Take(" ab cd ef", 8)) == "ab cd e"
  {
    SplitsWordCut();
    SplitsWordStripFront();
  }

  lemma SplitsWordStripFront()
    ensures Strip(" ab cd e") == "ab cd e"
  {
    SplitsWordTail();
    StripLeadingSpace(" ab cd e");
    SplitsWordTrimmed();
  }

  lemma SplitsWordTail()
    ensures IsSpace(" ab cd e"[0]) && " ab cd e"[1..] == "ab cd e"
  {
  }

  lemma SplitsWordTrimmed()
    ensures Strip("ab cd e") == "ab cd e"
  {
    StripTrimmed("ab cd e");
  }

  lemma SplitsWordRest()
    ensures Strip(Drop(" ab cd ef", 8)) == "f"
  {
    SplitsWordCut();
    StripTrimmed("f");
  }

  lemma SplitsWordCut()
    ensures Take(" ab cd ef", 8) == " ab cd e" && Drop(" ab cd ef", 8) == "f"
  {
  }

  lemma SplitsWordFront()
    ensures Words("ab cd e") == ["ab", "cd", "e"]
  {
    var front := ["ab", "cd", "e"];
    assert Join(front) == "ab cd e";
    WordsOfJoin(front);
  }

  /** The detector's answer behind the example above: no mark, no
      conjunction, so the fallback rule cuts at the single-space length of all
      three words. */
  lemma SplitsWordDetect()
    ensures Words(" ab cd ef") == ["ab", "cd", "ef"]
    ensures DetectPhraseBoundary(" ab cd ef", 3, 8) == Boundary(true, 8)
  {
    SplitsWordWords();
    SplitsWordNoMarks();
    SplitsWordFallback();
  }

  lemma SplitsWordWords()
    ensures Words(" ab cd ef") == ["ab", "cd", "ef"]
  {
    SplitsWordJoin();
    SplitsWordAllWords();
    WordsOfSpacedJoin(" ab cd ef", ["ab", "cd", "ef"]);
  }

  lemma SplitsWordAllWords()
    ensures AllWords(["ab", "cd", "ef"])
  {
  }

  lemma WordsOfSpacedJoin(t: string, ws: seq<string>)
    requires AllWords(ws) && t == " " + Join(ws)
    ensures Words(t) == ws
  {
    WordsAfterBlank(" ", Join(ws));
    WordsOfJoin(ws);
  }

  lemma SplitsWordJoin()
    ensures " ab cd ef" == " " + Join(["ab", "cd", "ef"])
  {
    assert Join(["ab", "cd", "ef"]) == "ab cd ef";
  }

  lemma SplitsWordFallback()
    ensures WordRules(["ab", "cd", "ef"], 3) == Boundary(true, 8)
  {
    var ws := ["ab", "cd", "ef"];
    assert ConjunctionAt(ws, 3, 2) == None;
    JoinedLenAll(ws);
    assert Join(ws) == "ab cd ef";
  }

  lemma SplitsWordNoMarks()
    ensures LastSentenceMark(" ab cd ef") == -1 && LastClauseMark(" ab cd ef") == -1
  {
    var text := " ab cd ef";
    RFindNone(text, '.');
    RFindNone(text, '!');
    RFindNone(text, '?');
    RFindNone(text, ',');
    RFindNone(text, ';');
    RFindNone(text, ':');
  }

  /** The corrected splitter: the positions are applied to the single-space
      form they were measured on. */
  function ExtractPhraseFixed(text: string, minWords: nat, maxWords: int): (string, string) {
    if IsBlank(text) then ("", "")
    else if |Words(text)| < minWords then ("", text)
    else ExtractPhrase(Join(Words(text)), minWords, maxWords)
  }

  /** The corrected splitter never splits or loses a word: the words of the
      phrase followed by those of the rest are the words of the text. */
  lemma ExtractPhraseFixedKeepsWords(text: string, minWords: nat, maxWords: int)
    requires minWords >= 1 && MarksEndWords(text)
    ensures var (phrase, remaining) := ExtractPhraseFixed(text, minWords, maxWords);
            Words(phrase) + Words(remaining) == Words(text)
  {
    var ws := Words(text);
    if IsBlank(text) {
      WordsBlank(text);
    } else if |ws| < minWords {
      assert Words("") == [];
    } else {
      var n := Join(ws);
      WordsOfJoin(ws);
      JoinNonEmpty(ws);
      MarksEndEachWord(text);
      MarksEndJoin(ws);
      if BoundaryUsable(n, minWords, maxWords) {
        DetectCutsBetweenWords(ws, minWords, maxWords);
        CutKeepsWords(n, DetectPhraseBoundary(n, minWords, maxWords).pos);
      } else {
        FallbackKeepsWords(ws, maxWords);
      }
      NotBlankJoin(ws);
    }
  }

  /** The single-space form of some words is not blank. */
  lemma NotBlankJoin(ws: seq<string>)
    requires AllWords(ws) && ws != []
    ensures !IsBlank(Join(ws))
  {
    JoinEnds(ws);
    JoinNonEmpty(ws);
    assert !IsSpace(Join(ws)[0]);
  }

  /** Cutting between words and stripping both parts keeps every word. */
  lemma CutKeepsWords(n: string, pos: int)
    requires CutsBetween(n, pos)
    ensures Words(Strip(Take(n, pos))) + Words(Strip(Drop(n, pos))) == Words(n)
  {
    assert Take(n, pos) == n[..pos] && Drop(n, pos) == n[pos..];
    WordsStrip(n[..pos]);
    WordsStrip(n[pos..]);
    WordsCut(n, pos);
  }

  /** Joining the first `maxWords` words and the rest keeps every word. */
  lemma FallbackKeepsWords(ws: seq<string>, maxWords: int)
    requires AllWords(ws)
    ensures Words(Join(Take(ws, maxWords))) + Words(Join(Drop(ws, maxWords))) == ws
  {
    assert AllWords(Take(ws, maxWords)) && AllWords(Drop(ws, maxWords));
    WordsOfJoin(Take(ws, maxWords));
    WordsOfJoin(Drop(ws, maxWords));
    TakeDrop(ws, maxWords);
  }
}
