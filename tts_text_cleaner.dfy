/**
 * `clean_text_for_tts`, `is_tts_worthy` and `clean_and_validate_phrase`
 * (server/utils/tts_text_cleaner.py): the text of a phrase is stripped of
 * markdown, links and characters that cannot be spoken before it is sent to
 * speech synthesis, and phrases that are too short or mostly punctuation are
 * dropped.
 */
module TtsTextCleaner {
  import opened PyStr
  import opened Wrappers
  import opened TtsRewrites

  /** No ASCII letter occurs in `s`. */
  predicate NoLetters(s: string) {
    forall c :: c in s ==> !IsAlpha(c)
  }

  /** The marks that count as a finished ending (line 110). */
  predicate IsEndMark(c: char) {
    c in ".!?,;:"
  }

  /** The default `min_length` of `is_tts_worthy` (line 118) and `min_words` of
      `clean_and_validate_phrase` (line 147). */
  const DefaultMinLength: int := 3
  const DefaultMinWords: int := 3

  /** The texts that line 105 treats as nothing but punctuation. */
  const LoneMarks: seq<string> := [".", ",", "!", "?", ";", ":"]

  /** Text with none of the markup the rewrites of lines 37-59 look for: no
      code, emphasis, header or link marker, no '@', no "http" and no "www.". */
  predicate PlainText(s: string) {
    && '`' !in s && '*' !in s && '_' !in s && '#' !in s && '[' !in s && '@' !in s
    && !Contains(s, "http") && !Contains(s, "www.")
  }

  /** What the cleaner promises of its output: no special character, no "--",
      whitespace only as single ' ' characters, and none at either end. */
  predicate Speakable(s: string) {
    && NoneOf(s, Special)
    && NoDoubleDash(s)
    && SingleSpaced(s)
    && (s == [] || (!IsSpace(s[0]) && !IsSpace(s[|s| - 1])))
  }

  // ------------------------------------------------------------ the stages

  /** Lines 37-52: code blocks, inline code, bold and italic markers, headers
      and markdown links go, keeping the text they wrap. */
  function RemoveMarkdown(s: string): (r: string)
    ensures CharsFrom(r, s, "")
    ensures '`' !in s && '*' !in s && '_' !in s && '#' !in s && '[' !in s ==> r == s
  {
    var s1 := RemoveCodeBlocks(s);
    var s2 := UnwrapInlineCode(s1);
    CharsFromTrans(s2, s1, s, "", "");
    var s3 := UnwrapDoubleStars(s2);
    CharsFromTrans(s3, s2, s, "", "");
    var s4 := UnwrapDoubleUnderscores(s3);
    CharsFromTrans(s4, s3, s, "", "");
    var s5 := UnwrapStars(s4);
    CharsFromTrans(s5, s4, s, "", "");
    var s6 := UnwrapUnderscores(s5);
    CharsFromTrans(s6, s5, s, "", "");
    var s7 := RemoveHeaders(s6);
    CharsFromTrans(s7, s6, s, "", "");
    var s8 := UnwrapLinks(s7);
    CharsFromTrans(s8, s7, s, "", "");
    s8
  }

  /** Characters drawn from letter-free text and letter-free extras are
      letter-free, and likewise for '@'. */
  lemma NoLettersKept(r: string, s: string, extra: string)
    requires CharsFrom(r, s, extra)
    ensures NoLetters(s) && NoLetters(extra) ==> NoLetters(r)
    ensures '@' !in s && '@' !in extra ==> '@' !in r
  {
  }

  /** Lines 37-59: code blocks, inline code, bold and italic markers, headers
      and markdown links go; URLs become "link" and e-mail addresses "email
      address". */
  function RewriteMarkup(s: string): (r: string)
    ensures CharsFrom(r, s, "link" + "email address")
    ensures NoLetters(s) && '@' !in s ==> NoLetters(r) && '@' !in r && CharsFrom(r, s, "")
    ensures PlainText(s) ==> r == s
  {
    var m := RemoveMarkdown(s);
    var s9 := ReplaceUrls(m);
    var s10 := ReplaceWwwUrls(s9);
    var r := ReplaceEmails(s10);
    LinkThenEmail(r, s10, s9, m, s);
    NoLettersKept(m, s, "");
    if NoLetters(s) && '@' !in s then
      assert !IsAlpha('h') ==> 'h' !in m;
      assert !IsAlpha('w') ==> 'w' !in m;
      r
    else r
  }

  lemma LinkThenEmail(r: string, s10: string, s9: string, m: string, s: string)
    requires CharsFrom(m, s, "") && CharsFrom(s9, m, "link") && CharsFrom(s10, s9, "link")
    requires CharsFrom(r, s10, "email address")
    ensures CharsFrom(r, s, "link" + "email address")
  {
    CharsFromTrans(s10, s9, m, "link", "link");
    CharsFromTrans(s10, m, s, "link" + "link", "");
    CharsFromTrans(r, s10, s, "email address", "link" + "link" + "");
    forall c | c in r ensures c in s || c in "link" + "email address" {
      if c !in s {
        assert c in "email address" + ("link" + "link" + "");
      }
    }
  }

  /** Lines 62-65: runs of "!", "?", "," collapse to one mark and runs of
      three or more dots to "...".  Every character other than those four
      marks stays, in order, and text with no repeated mark is unchanged. */
  function CollapseRepeatedMarks(s: string): (r: string)
    ensures CharsFrom(r, s, "")
    ensures Without(r, AnyOf("!?.,")) == Without(s, AnyOf("!?.,"))
    ensures Letters(r) == Letters(s)
    ensures RunsBelow(s, '!', 2) && RunsBelow(s, '?', 2) && RunsBelow(s, '.', 3) && RunsBelow(s, ',', 2) ==> r == s
  {
    var s1 := CollapseRepeats(s, '!', 2, "!");
    var s2 := CollapseRepeats(s1, '?', 2, "?");
    var s3 := CollapseRepeats(s2, '.', 3, "...");
    var r := CollapseRepeats(s3, ',', 2, ",");
    MarksKept(s, s1, s2, s3, r);
    r
  }

  /** Each of the four stages keeps what lies outside the four marks. */
  lemma MarksKept(s: string, s1: string, s2: string, s3: string, r: string)
    requires Without(s1, Only('!')) == Without(s, Only('!'))
    requires Without(s2, Only('?')) == Without(s1, Only('?'))
    requires Without(s3, Only('.')) == Without(s2, Only('.'))
    requires Without(r, Only(',')) == Without(s3, Only(','))
    ensures Without(r, AnyOf("!?.,")) == Without(s, AnyOf("!?.,"))
    ensures Letters(r) == Letters(s)
  {
    var m := AnyOf("!?.,");
    KeptWithin(s1, s, Only('!'), m);
    KeptWithin(s2, s1, Only('?'), m);
    KeptWithin(s3, s2, Only('.'), m);
    KeptWithin(r, s3, Only(','), m);
    KeptWithin(r, s, m, NotLetter);
  }

  lemma SpeakableSlice(s: string, i: nat, j: nat)
    requires i <= j <= |s|
    requires NoneOf(s, Special) && NoDoubleDash(s) && SingleSpaced(s)
    ensures NoneOf(s[i..j], Special) && NoDoubleDash(s[i..j]) && SingleSpaced(s[i..j])
  {
    var t := s[i..j];
    forall k | 0 <= k < |t| - 1 ensures !(t[k] == '-' && t[k + 1] == '-') && !(IsSpace(t[k]) && IsSpace(t[k + 1])) {
      assert t[k] == s[i + k] && t[k + 1] == s[i + k + 1];
    }
    forall k | 0 <= k < |t| ensures !InClass(t[k], Special) && (IsSpace(t[k]) ==> t[k] == ' ') {
      assert t[k] == s[i + k];
    }
  }

  /** `strip()` keeps the cleaner's guarantees and adds no character. */
  lemma SpeakableStrip(s: string)
    ensures CharsFrom(Strip(s), s, "")
    ensures NoneOf(s, Special) && NoDoubleDash(s) && SingleSpaced(s) ==> Speakable(Strip(s))
  {
    var i, j := StripIsSlice(s);
    if NoneOf(s, Special) && NoDoubleDash(s) && SingleSpaced(s) {
      SpeakableSlice(s, i, j);
    }
    forall c | c in s[i..j] ensures c in s {
      var k :| 0 <= k < j - i && s[i..j][k] == c;
      assert s[i + k] == c;
    }
  }

  lemma NoneOfCharsFrom(r: string, s: string, extra: string, cls: CharClass)
    requires CharsFrom(r, s, extra) && NoneOf(s, cls) && NoneOf(extra, cls)
    ensures NoneOf(r, cls)
  {
    forall i | 0 <= i < |r| ensures !InClass(r[i], cls) {
      assert r[i] in r;
    }
  }

  /** Lines 70-85: special characters become spaces, whitespace is
      normalised, stray marks are attached to the word before them and
      followed by a space. */
  function SpaceOut(s: string): (r: string)
    ensures NoneOf(r, Special)
    ensures CharsFrom(r, s, " ")
    ensures Letters(r) == Letters(s)
  {
    var a := RemoveSpecialChars(s);
    var b := CollapseWhitespace(a);
    var c := AttachLoneMarks(b);
    var d := SpaceAfterMarks(c);
    var e := KeepCharBeforeMarks(d);
    assert CharsFrom(e, a, " ");
    NoneOfCharsFrom(e, a, " ", Special);
    SpecialsNotLetters();
    KeptWithin(a, s, SpaceOr(SpecialChars), NotLetter);
    e
  }

  /** Lines 88-101: empty brackets and bracketed numbers go, the quotes are
      left as they are, dash runs become a space and whitespace is
      normalised again. */
  function Tidy(s: string): (r: string)
    ensures NoDoubleDash(r) && SingleSpaced(r)
    ensures CharsFrom(r, s, " ")
    ensures Letters(r) == Letters(s)
  {
    var f := RemoveEmptyBrackets(s);
    var g := RemoveNumbersInParens(f);
    var h := ReplaceChar(ReplaceChar(g, '\"', '\"'), '\"', '\"');
    var i := ReplaceChar(ReplaceChar(h, '\'', '\''), '\'', '\'');
    var j := CollapseDashes(i);
    var k := CollapseWhitespace(j);
    DashNotLetter();
    KeptWithin(j, i, SpaceOr("-"), NotLetter);
    k
  }

  /** Lines 70-102: the two groups of rewrites above, then `strip()`. */
  function Respace(s: string): (r: string)
    ensures Speakable(r)
    ensures CharsFrom(r, s, " ")
    ensures Letters(r) == Letters(s)
  {
    var e := SpaceOut(s);
    var k := Tidy(e);
    NoneOfCharsFrom(k, e, " ", Special);
    SpeakableStrip(k);
    LettersStrip(k);
    assert CharsFrom(k, s, " ");
    Strip(k)
  }

  lemma SpecialsNotLetters()
    ensures forall c :: InClass(c, SpaceOr(SpecialChars)) ==> InClass(c, NotLetter)
  {
    forall c | InClass(c, SpaceOr(SpecialChars)) ensures !IsAlpha(c) {
      if !IsSpace(c) {
        var k :| 0 <= k < |SpecialChars| && SpecialChars[k] == c;
      }
    }
  }

  lemma DashNotLetter()
    ensures forall c :: InClass(c, SpaceOr("-")) ==> InClass(c, NotLetter)
  {
    forall c | InClass(c, SpaceOr("-")) ensures !IsAlpha(c) {
      if !IsSpace(c) {
        assert c == '-';
      }
    }
  }

  /** `strip()` removes whitespace only, so it keeps every letter. */
  lemma LettersStrip(s: string)
    ensures Letters(Strip(s)) == Letters(s)
  {
    var i, j := StripIsSlice(s);
    SplitThree(s, i, j);
    WithoutAppend(s[..i], s[i..j] + s[j..], NotLetter);
    WithoutAppend(s[i..j], s[j..], NotLetter);
    BlankNoLetters(s[..i]);
    BlankNoLetters(s[j..]);
  }

  lemma BlankNoLetters(u: string)
    requires IsBlank(u)
    ensures Letters(u) == []
  {
    forall i | 0 <= i < |u| ensures InClass(u[i], NotLetter) {
      assert IsSpace(u[i]);
    }
    WithoutAll(u, NotLetter);
  }

  /** Lines 34-102: the text after every rewrite, before the checks of lines
      105-113. */
  function Sanitize(text: string): (r: string)
    ensures Speakable(r)
    ensures NoLetters(text) && '@' !in text ==> NoLetters(r) && '@' !in r
    ensures Letters(r) == Letters(RewriteMarkup(Strip(text)))
    ensures PlainText(text) ==> Letters(r) == Letters(text)
  {
    var t := Strip(text);
    SpeakableStrip(text);
    var m := RewriteMarkup(t);
    var p := CollapseRepeatedMarks(m);
    var r := Respace(p);
    StagesKeepNoLetters(text, t, m, p, r);
    if PlainText(text) then
      PlainStrip(text);
      LettersStrip(text);
      r
    else r
  }

  /** `strip()` of plain text is plain. */
  lemma PlainStrip(s: string)
    requires PlainText(s)
    ensures PlainText(Strip(s))
  {
    var i, j := StripIsSlice(s);
    SpeakableStrip(s);
    ContainsSlice(s, i, j, "http");
    ContainsSlice(s, i, j, "www.");
  }

  /** What occurs in a slice occurs in the text. */
  lemma ContainsSlice(s: string, i: nat, j: nat, p: string)
    requires i <= j <= |s|
    ensures Contains(s[i..j], p) ==> Contains(s, p)
  {
    if Contains(s[i..j], p) {
      var k :| 0 <= k <= |s[i..j]| && StartsWith(s[i..j][k..], p);
      assert s[i..j][k..][..|p|] == s[i + k..][..|p|];
    }
  }

  /** Letter-free text without '@' stays so through the stages of `Sanitize`. */
  lemma StagesKeepNoLetters(text: string, t: string, m: string, p: string, r: string)
    requires CharsFrom(t, text, "")
    requires NoLetters(t) && '@' !in t ==> NoLetters(m) && '@' !in m
    requires CharsFrom(p, m, "") && CharsFrom(r, p, " ")
    ensures NoLetters(text) && '@' !in text ==> NoLetters(r) && '@' !in r
  {
    NoLettersKept(t, text, "");
    NoLettersKept(p, m, "");
    NoLettersKept(r, p, " ");
  }

  /** Lines 110-113: a period is added after more than three words that do not
      already end in a mark. */
  function AddFinalPeriod(c: string): (r: string)
    requires c != []
    ensures r == c || r == c + "."
    ensures r == c + "." <==> !IsEndMark(c[|c| - 1]) && |Words(c)| > 3
    ensures IsEndMark(r[|r| - 1]) || |Words(r)| <= 3
    ensures Letters(r) == Letters(c)
  {
    if !IsEndMark(c[|c| - 1]) && |Words(c)| > 3 then
      WithoutAppend(c, ".", NotLetter);
      c + "."
    else c
  }

  lemma SpeakableWithPeriod(c: string)
    requires Speakable(c)
    ensures Speakable(c + ".")
  {
    var s := c + ".";
    forall k | 0 <= k < |s| - 1 ensures !(s[k] == '-' && s[k + 1] == '-') && !(IsSpace(s[k]) && IsSpace(s[k + 1])) {
      if k + 1 < |c| {
        assert s[k] == c[k] && s[k + 1] == c[k + 1];
      }
    }
    forall k | 0 <= k < |s| ensures !InClass(s[k], Special) && (IsSpace(s[k]) ==> s[k] == ' ') {
      if k < |c| {
        assert s[k] == c[k];
      }
    }
  }

  /** Lines 105-113: text that is empty or a lone mark becomes empty, and
      a period is added where line 110 asks for one. */
  function Finish(cleaned: string): (r: string)
    requires Speakable(cleaned)
    ensures Speakable(r)
    ensures r !in LoneMarks
    ensures r == "" <==> cleaned == "" || Strip(cleaned) in LoneMarks
    ensures cleaned != "" && Strip(cleaned) !in LoneMarks ==> r == AddFinalPeriod(cleaned)
    ensures r != [] ==> r == cleaned || r == cleaned + "."
    ensures |Words(r)| > 3 ==> r != [] && IsEndMark(r[|r| - 1])
    ensures NoLetters(cleaned) ==> NoLetters(r)
    ensures Letters(r) == Letters(cleaned)
  {
    if cleaned == "" || Strip(cleaned) in LoneMarks then
      assert Words("") == [];
      NotLoneMark("");
      if cleaned == "" then ""
      else
        LoneMarkNoLetters(Strip(cleaned));
        LettersStrip(cleaned);
        ""
    else
      StripTrimmed(cleaned);
      PeriodKeepsSpeakable(cleaned);
      AddFinalPeriod(cleaned)
  }

  /** Adding the final period keeps the text speakable, never makes a lone
      mark of it and adds no letter. */
  lemma PeriodKeepsSpeakable(cleaned: string)
    requires Speakable(cleaned) && cleaned != [] && cleaned !in LoneMarks
    ensures Speakable(AddFinalPeriod(cleaned)) && AddFinalPeriod(cleaned) !in LoneMarks
    ensures NoLetters(cleaned) ==> NoLetters(AddFinalPeriod(cleaned))
  {
    SpeakableWithPeriod(cleaned);
    NotLoneMark(cleaned + ".");
    NoLettersKept(cleaned + ".", cleaned, ".");
  }

  /** A lone mark has no letter. */
  lemma LoneMarkNoLetters(m: string)
    requires m in LoneMarks
    ensures Letters(m) == []
  {
    var k :| 0 <= k < |LoneMarks| && LoneMarks[k] == m;
    assert |m| == 1 && !IsAlpha(m[0]);
    WithoutAll(m, NotLetter);
  }

  /** Every lone mark is one character long. */
  lemma NotLoneMark(s: string)
    requires |s| != 1
    ensures s !in LoneMarks
  {
    forall k | 0 <= k < |LoneMarks| ensures |LoneMarks[k]| == 1 {
    }
  }

  /** `clean_text_for_tts(text)` (lines 9-115). */
  function CleanTextForTts(text: string): (r: string)
    ensures IsBlank(text) ==> r == ""
    ensures !IsBlank(text) ==> r == Finish(Sanitize(text))
    ensures r == "" <==> IsBlank(text) || Sanitize(text) == "" || Strip(Sanitize(text)) in LoneMarks
    ensures Speakable(r)
    ensures r !in LoneMarks
    ensures r != [] ==> r == Sanitize(text) || r == Sanitize(text) + "."
    ensures r != [] ==> Sanitize(text) != [] && (r == Sanitize(text) + "." <==> !IsEndMark(Sanitize(text)[|Sanitize(text)| - 1]) && |Words(Sanitize(text))| > 3)
    ensures |Words(r)| > 3 ==> r != [] && IsEndMark(r[|r| - 1])
    ensures NoLetters(text) && '@' !in text ==> NoLetters(r) && '@' !in r
    ensures PlainText(text) ==> Letters(r) == Letters(text)
  {
    if IsBlank(text) then
      assert Words("") == [];
      BlankNoLetters(text);
      ""
    else Finish(Sanitize(text))
  }

  // ------------------------------------------------------------ validation

  /** `is_tts_worthy(text, min_length)` (lines 118-144).  The ratio test
      `alpha / len < 0.3` is the integer comparison `10 * alpha < 3 * len`. */
  function IsTtsWorthy(text: string, minLength: int): (worthy: bool)
    ensures worthy <==> && !IsBlank(text)
                        && |Words(CleanTextForTts(text))| >= minLength
                        && 10 * AlphaCount(CleanTextForTts(text)) >= 3 * |CleanTextForTts(text)|
    ensures worthy && minLength >= 1 ==> AlphaCount(CleanTextForTts(text)) > 0
  {
    if IsBlank(text) then false
    else
      var cleaned := CleanTextForTts(text);
      if |Words(cleaned)| < minLength then false
      else if |cleaned| > 0 && 10 * AlphaCount(cleaned) < 3 * |cleaned| then false
      else
        assert minLength >= 1 ==> cleaned != [] by {
          if cleaned == [] {
            assert Words(cleaned) == [];
          }
        }
        true
  }

  lemma {:induction false} AlphaCountNoLetters(s: string)
    requires NoLetters(s)
    ensures AlphaCount(s) == 0
  {
    if s != [] {
      assert s[0] in s;
      assert NoLetters(s[1..]) by {
        forall c | c in s[1..] ensures !IsAlpha(c) {
          InSuffix(s, 1, c);
        }
      }
      AlphaCountNoLetters(s[1..]);
    }
  }

  /** Text with no letter and no '@' (which could become "email address") is
      never worthy of speech: after cleaning it is either empty, so it has
      too few words, or it is all punctuation. */
  lemma NoLettersNotWorthy(text: string, minLength: int)
    requires NoLetters(text) && '@' !in text
    requires minLength >= 1
    ensures !IsTtsWorthy(text, minLength)
  {
    if !IsBlank(text) {
      AlphaCountNoLetters(CleanTextForTts(text));
    }
  }

  /** `clean_and_validate_phrase(text, min_words)` (lines 147-167). */
  function CleanAndValidatePhrase(text: string, minWords: int): (r: Option<string>)
    ensures IsBlank(text) ==> r.None?
    ensures r.Some? ==> r.value == CleanTextForTts(text)
    ensures r.Some? ==> r.value != "" && Speakable(r.value) && r.value !in LoneMarks
    ensures r.Some? <==> !IsBlank(text) && IsTtsWorthy(CleanTextForTts(text), minWords)
  {
    if IsBlank(text) then None
    else
      var cleaned := CleanTextForTts(text);
      if !IsTtsWorthy(cleaned, minWords) then None else Some(cleaned)
  }

  /** Punctuation-only text, such as "...", is never passed on to speech. */
  lemma NoLettersDropped(text: string, minWords: int)
    requires NoLetters(text) && '@' !in text
    requires minWords >= 1
    ensures CleanAndValidatePhrase(text, minWords) == None
  {
    if !IsBlank(text) {
      NoLettersNotWorthy(CleanTextForTts(text), minWords);
    }
  }
}
