/**
 * The pieces of Python's `str` and sequence semantics that the core relies on:
 * `isspace`, the no-argument `split()` and `strip()`, `' '.join`, `rfind`,
 * slicing with Python's index clamping, and `lower`/`isalpha` (ASCII only).
 */
module PyStr {

  /** `c.isspace()`.  re's `\s` on str patterns and the no-argument
      `split()`/`strip()` use this same set of characters. */
  predicate IsSpace(c: char) {
    || ('\t' <= c <= '\r')
    || ('\U{1C}' <= c <= '\U{1F}')
    || c == ' '
    || c == '\U{85}'
    || c == '\U{A0}'
    || c == '\U{1680}'
    || ('\U{2000}' <= c <= '\U{200A}')
    || c == '\U{2028}'
    || c == '\U{2029}'
    || c == '\U{202F}'
    || c == '\U{205F}'
    || c == '\U{3000}'
  }

  /** `not s.strip()`: `s` is empty or holds whitespace only. */
  predicate IsBlank(s: string) {
    forall i :: 0 <= i < |s| ==> IsSpace(s[i])
  }

  /** `s` holds no whitespace character. */
  predicate NoSpaceIn(s: string) {
    forall i :: 0 <= i < |s| ==> !IsSpace(s[i])
  }

  /** One element of `s.split()`: a non-empty run without whitespace. */
  predicate IsWord(w: string) {
    w != [] && NoSpaceIn(w)
  }

  predicate AllWords(ws: seq<string>) {
    forall k :: 0 <= k < |ws| ==> IsWord(ws[k])
  }

  // ---------------------------------------------------------------- slicing

  /** Python's normalisation of a slice index `k` for a sequence of length `n`. */
  function Clamp(n: nat, k: int): (r: nat)
    ensures r <= n
    ensures 0 <= k <= n ==> r == k
    ensures k > n ==> r == n
  {
    if k < 0 then (if n + k < 0 then 0 else n + k) else if k > n then n else k
  }

  /** `s[:k]` */
  function Take<T>(s: seq<T>, k: int): seq<T> {
    s[..Clamp(|s|, k)]
  }

  /** `s[k:]` */
  function Drop<T>(s: seq<T>, k: int): seq<T> {
    s[Clamp(|s|, k)..]
  }

  /** `s[a:b]` */
  function Slice<T>(s: seq<T>, a: int, b: int): seq<T> {
    var i, j := Clamp(|s|, a), Clamp(|s|, b);
    if i <= j then s[i..j] else []
  }

  lemma TakeDrop<T>(s: seq<T>, k: int)
    ensures Take(s, k) + Drop(s, k) == s
  {
  }

  /** A sequence is the concatenation of its three parts around `i` and `j`. */
  lemma SplitThree<T>(s: seq<T>, i: nat, j: nat)
    requires i <= j <= |s|
    ensures s == s[..i] + (s[i..j] + s[j..])
  {
    assert s[i..] == s[i..j] + s[j..];
    assert s == s[..i] + s[i..];
  }

  // -------------------------------------------------------------- stripping

  /** Number of whitespace characters at the start of `s`. */
  function LeadingSpaces(s: string): (n: nat)
    ensures n <= |s|
    ensures IsBlank(s[..n])
    ensures n == |s| || !IsSpace(s[n])
  {
    if s != [] && IsSpace(s[0]) then 1 + LeadingSpaces(s[1..]) else 0
  }

  /** Number of whitespace characters at the end of `s`. */
  function TrailingSpaces(s: string): (n: nat)
    ensures n <= |s|
    ensures IsBlank(s[|s| - n..])
    ensures n == |s| || !IsSpace(s[|s| - n - 1])
  {
    if s != [] && IsSpace(s[|s| - 1]) then 1 + TrailingSpaces(s[..|s| - 1]) else 0
  }

  /** `s.lstrip()` */
  function LStrip(s: string): string {
    s[LeadingSpaces(s)..]
  }

  /** `s.rstrip()` */
  function RStrip(s: string): string {
    s[..|s| - TrailingSpaces(s)]
  }

  /** `s.strip()`: drops the whitespace at both ends and nothing else. */
  function Strip(s: string): (r: string)
    ensures r == [] || (!IsSpace(r[0]) && !IsSpace(r[|r| - 1]))
    ensures r == [] <==> IsBlank(s)
    ensures |r| <= |s|
  {
    var t := LStrip(s);
    assert IsBlank(s) <==> t == [] by {
      var n := LeadingSpaces(s);
      if t == [] {
        assert s == s[..n];
      } else {
        assert !IsSpace(s[n]);
      }
    }
    RStrip(t)
  }

  /** `s.strip()` is a contiguous part of `s` with blank text on either side. */
  lemma StripIsSlice(s: string) returns (i: nat, j: nat)
    ensures i <= j <= |s| && Strip(s) == s[i..j]
    ensures IsBlank(s[..i]) && IsBlank(s[j..])
  {
    i := LeadingSpaces(s);
    var t := LStrip(s);
    assert t == s[i..];
    var n := TrailingSpaces(t);
    j := i + |t| - n;
    assert Strip(s) == t[..|t| - n];
    assert t[..|t| - n] == s[i..j];
    assert t[|t| - n..] == s[j..];
  }

  /** Text without whitespace at either end is its own `strip()`. */
  lemma StripTrimmed(s: string)
    requires s == [] || (!IsSpace(s[0]) && !IsSpace(s[|s| - 1]))
    ensures Strip(s) == s
  {
    if s != [] {
      assert LeadingSpaces(s) == 0;
      assert TrailingSpaces(s) == 0;
    }
  }

  /** A leading whitespace character does not change `strip()`. */
  lemma StripLeadingSpace(s: string)
    requires s != [] && IsSpace(s[0])
    ensures Strip(s) == Strip(s[1..])
  {
    assert LStrip(s) == LStrip(s[1..]);
  }

  // --------------------------------------------------------- the characters

  /** The non-whitespace characters of `s`, in order. */
  function NoSpace(s: string): string {
    if s == [] then [] else (if IsSpace(s[0]) then [] else [s[0]]) + NoSpace(s[1..])
  }

  /** All the characters of the words, in order. */
  function Concat(ws: seq<string>): string {
    if ws == [] then [] else ws[0] + Concat(ws[1..])
  }

  lemma {:induction false} NoSpaceAppend(a: string, b: string)
    ensures NoSpace(a + b) == NoSpace(a) + NoSpace(b)
  {
    if a != [] {
      assert (a + b)[1..] == a[1..] + b;
      NoSpaceAppend(a[1..], b);
    } else {
      assert a + b == b;
    }
  }

  lemma {:induction false} NoSpaceBlank(s: string)
    requires IsBlank(s)
    ensures NoSpace(s) == []
  {
    if s != [] {
      NoSpaceBlank(s[1..]);
    }
  }

  lemma {:induction false} NoSpaceOfNoSpaceIn(s: string)
    requires NoSpaceIn(s)
    ensures NoSpace(s) == s
  {
    if s != [] {
      NoSpaceOfNoSpaceIn(s[1..]);
    }
  }

  lemma {:induction false} ConcatAppend(a: seq<string>, b: seq<string>)
    ensures Concat(a + b) == Concat(a) + Concat(b)
  {
    if a != [] {
      assert (a + b)[1..] == a[1..] + b;
      ConcatAppend(a[1..], b);
    } else {
      assert a + b == b;
    }
  }

  /** Stripping deletes whitespace only. */
  lemma NoSpaceStrip(s: string)
    ensures NoSpace(Strip(s)) == NoSpace(s)
  {
    var i, j := StripIsSlice(s);
    SplitThree(s, i, j);
    NoSpaceBlankAround(s[..i], s[i..j] + s[j..]);
    NoSpaceBlankAround(s[j..], s[i..j]);
  }

  /** Blank text on either side of `r` adds no character. */
  lemma NoSpaceBlankAround(a: string, r: string)
    requires IsBlank(a)
    ensures NoSpace(a + r) == NoSpace(r) && NoSpace(r + a) == NoSpace(r)
  {
    NoSpaceAppend(a, r);
    NoSpaceAppend(r, a);
    NoSpaceBlank(a);
    assert [] + NoSpace(r) == NoSpace(r) + [] == NoSpace(r);
  }

  // -------------------------------------------------------------- splitting

  /** Length of the run of non-whitespace characters that starts `s`. */
  function TokenLen(s: string): (n: nat)
    ensures n <= |s|
    ensures NoSpaceIn(s[..n])
    ensures n == |s| || IsSpace(s[n])
  {
    if s == [] || IsSpace(s[0]) then 0 else 1 + TokenLen(s[1..])
  }

  /** `s.split()`: the maximal runs of non-whitespace characters, in order. */
  function Words(s: string): (ws: seq<string>)
    ensures AllWords(ws)
    decreases |s|
  {
    if s == [] then []
    else if IsSpace(s[0]) then Words(s[1..])
    else
      var n := TokenLen(s);
      [s[..n]] + Words(s[n..])
  }

  /** `' '.join(ws)` */
  function Join(ws: seq<string>): string {
    if |ws| == 0 then "" else if |ws| == 1 then ws[0] else ws[0] + " " + Join(ws[1..])
  }

  lemma {:induction false} JoinAppend(a: seq<string>, b: seq<string>)
    requires a != [] && b != []
    ensures Join(a + b) == Join(a) + " " + Join(b)
  {
    if |a| == 1 {
      assert (a + b)[1..] == b;
    } else {
      assert (a + b)[1..] == a[1..] + b;
      JoinAppend(a[1..], b);
    }
  }

  /** Joining a prefix one word longer adds a space and that word. */
  lemma JoinPrefixStep(ws: seq<string>, k: nat)
    requires 1 <= k < |ws|
    ensures Join(ws[..k + 1]) == Join(ws[..k]) + " " + ws[k]
  {
    assert ws[..k + 1] == ws[..k] + [ws[k]];
    JoinAppend(ws[..k], [ws[k]]);
  }

  /** The joined form of a prefix of the words is no longer than the joined whole. */
  lemma JoinPrefixShorter(ws: seq<string>, k: nat)
    requires k <= |ws|
    ensures |Join(ws[..k])| <= |Join(ws)|
  {
    if 0 < k < |ws| {
      assert ws == ws[..k] + ws[k..];
      JoinAppend(ws[..k], ws[k..]);
    } else if k == |ws| {
      assert ws[..k] == ws;
    }
  }

  /** The joined form of non-empty words is non-empty. */
  lemma {:induction false} JoinNonEmpty(ws: seq<string>)
    requires AllWords(ws) && ws != []
    ensures |Join(ws)| >= |ws[0]| >= 1
  {
  }

  /** A run without whitespace followed by whitespace (or nothing) is one token. */
  lemma {:induction false} TokenLenOf(w: string, t: string)
    requires NoSpaceIn(w)
    requires t == [] || IsSpace(t[0])
    ensures TokenLen(w + t) == |w|
  {
    if w == [] {
      assert w + t == t;
    } else {
      assert (w + t)[1..] == w[1..] + t;
      TokenLenOf(w[1..], t);
    }
  }

  /** `' '.join(ws).split() == ws` when every element is a word. */
  lemma {:induction false} WordsOfJoin(ws: seq<string>)
    requires AllWords(ws)
    ensures Words(Join(ws)) == ws
  {
    if |ws| == 0 {
    } else if |ws| == 1 {
      var w := ws[0];
      TokenLenOf(w, []);
      assert w + [] == w;
      assert w[|w|..] == [];
    } else {
      var w, j := ws[0], Join(ws[1..]);
      var s := w + " " + j;
      assert s == w + (" " + j);
      TokenLenOf(w, " " + j);
      assert s[..|w|] == w;
      assert s[|w|..] == " " + j;
      assert (" " + j)[1..] == j;
      WordsOfJoin(ws[1..]);
    }
  }

  /** Splitting keeps every non-whitespace character, in order. */
  lemma {:induction false} NoSpaceWords(s: string)
    ensures NoSpace(s) == Concat(Words(s))
    decreases |s|
  {
    if s == [] {
    } else if IsSpace(s[0]) {
      NoSpaceWords(s[1..]);
    } else {
      var n := TokenLen(s);
      assert s == s[..n] + s[n..];
      NoSpaceAppend(s[..n], s[n..]);
      NoSpaceOfNoSpaceIn(s[..n]);
      NoSpaceWords(s[n..]);
      assert Concat([s[..n]] + Words(s[n..])) == s[..n] + Concat(Words(s[n..]));
    }
  }

  /** Joining words with single spaces keeps every non-whitespace character, in order. */
  lemma {:induction false} NoSpaceJoin(ws: seq<string>)
    requires AllWords(ws)
    ensures NoSpace(Join(ws)) == Concat(ws)
  {
    if |ws| == 1 {
      NoSpaceOfNoSpaceIn(ws[0]);
      assert Concat(ws) == ws[0] + Concat([]);
    } else if |ws| > 1 {
      NoSpaceAppend(ws[0] + " ", Join(ws[1..]));
      NoSpaceAppend(ws[0], " ");
      NoSpaceOfNoSpaceIn(ws[0]);
      assert NoSpace(" ") == [];
      NoSpaceJoin(ws[1..]);
    }
  }

  /** The single-space form of `s` is no longer than `s`. */
  lemma {:induction false} JoinWordsFits(s: string)
    ensures |Join(Words(s))| <= |s|
    decreases |s|
  {
    if s == [] {
    } else if IsSpace(s[0]) {
      JoinWordsFits(s[1..]);
    } else {
      var n := TokenLen(s);
      var rest := Words(s[n..]);
      if rest != [] {
        assert n < |s| && IsSpace(s[n]);
        assert s[n..][1..] == s[n + 1..];
        JoinWordsFits(s[n + 1..]);
        JoinAppend([s[..n]], rest);
      }
    }
  }

  /** Blank text has no words. */
  lemma {:induction false} WordsBlank(s: string)
    requires IsBlank(s)
    ensures Words(s) == []
    decreases |s|
  {
    if s != [] {
      WordsBlank(s[1..]);
    }
  }

  /** Text glued at whitespace splits into the words of its two parts. */
  lemma {:induction false} WordsAppendAtSpace(a: string, b: string)
    requires a == [] || b == [] || IsSpace(a[|a| - 1]) || IsSpace(b[0])
    ensures Words(a + b) == Words(a) + Words(b)
    decreases |a|, 1
  {
    if a == [] {
      assert a + b == b;
    } else if b == [] {
      assert a + b == a;
    } else if IsSpace(a[0]) {
      WordsAppendAfterSpace(a, b);
    } else if TokenLen(a) < |a| {
      WordsAppendAfterToken(a, b);
    } else {
      WordsWholeToken(a, b);
    }
  }

  lemma {:induction false} WordsAppendAfterSpace(a: string, b: string)
    requires a != [] && b != [] && IsSpace(a[0])
    requires IsSpace(a[|a| - 1]) || IsSpace(b[0])
    ensures Words(a + b) == Words(a) + Words(b)
    decreases |a|, 0
  {
    WordsSpaceStep(a, b);
    var t := a[1..];
    assert t == [] || t[|t| - 1] == a[|a| - 1];
    WordsAppendAtSpace(t, b);
  }

  lemma {:induction false} WordsAppendAfterToken(a: string, b: string)
    requires a != [] && b != [] && !IsSpace(a[0]) && TokenLen(a) < |a|
    requires IsSpace(a[|a| - 1]) || IsSpace(b[0])
    ensures Words(a + b) == Words(a) + Words(b)
    decreases |a|, 0
  {
    var n := WordsTokenStep(a, b);
    LastOfSuffix(a, n);
    WordsAppendAtSpace(a[n..], b);
    ConsAppend(a[..n], Words(a[n..]), Words(b));
  }

  lemma LastOfSuffix<T>(s: seq<T>, n: nat)
    requires n < |s|
    ensures s[n..][|s| - n - 1] == s[|s| - 1]
  {
  }

  lemma ConsAppend<T>(x: T, p: seq<T>, q: seq<T>)
    ensures [x] + (p + q) == ([x] + p) + q
  {
  }

  lemma WordsSpaceStep(a: string, b: string)
    requires a != [] && IsSpace(a[0])
    ensures Words(a + b) == Words(a[1..] + b)
  {
    assert (a + b)[0] == a[0];
    assert (a + b)[1..] == a[1..] + b;
  }

  lemma WordsTokenStep(a: string, b: string) returns (n: nat)
    requires a != [] && !IsSpace(a[0]) && TokenLen(a) < |a|
    ensures n == TokenLen(a) && n < |a|
    ensures Words(a) == [a[..n]] + Words(a[n..])
    ensures Words(a + b) == [a[..n]] + Words(a[n..] + b)
  {
    n := TokenLen(a);
    var ab := a + b;
    assert ab == a[..n] + (a[n..] + b);
    TokenLenOf(a[..n], a[n..] + b);
    assert ab[0] == a[0];
    assert ab[..n] == a[..n];
    assert ab[n..] == a[n..] + b;
  }

  lemma WordsWholeToken(a: string, b: string)
    requires a != [] && !IsSpace(a[0]) && TokenLen(a) == |a|
    requires b == [] || IsSpace(b[0])
    ensures Words(a + b) == Words(a) + Words(b)
  {
    var n := |a|;
    assert a[..n] == a && a[n..] == [];
    assert Words(a) == [a];
    TokenLenOf(a, b);
    var ab := a + b;
    assert ab[0] == a[0];
    assert ab[..n] == a && ab[n..] == b;
  }

  /** Cutting the text next to whitespace splits no word. */
  lemma WordsCut(s: string, pos: nat)
    requires pos <= |s|
    requires pos == 0 || pos == |s| || IsSpace(s[pos - 1]) || IsSpace(s[pos])
    ensures Words(s[..pos]) + Words(s[pos..]) == Words(s)
  {
    assert s == s[..pos] + s[pos..];
    WordsAppendAtSpace(s[..pos], s[pos..]);
  }

  /** Stripping changes no word. */
  lemma WordsStrip(s: string)
    ensures Words(Strip(s)) == Words(s)
  {
    var i, j := StripIsSlice(s);
    SplitThree(s, i, j);
    var a, m, b := s[..i], s[i..j], s[j..];
    WordsAfterBlank(a, m + b);
    WordsBeforeBlank(m, b);
  }

  /** Blank text in front changes no word. */
  lemma WordsAfterBlank(a: string, r: string)
    requires IsBlank(a)
    ensures Words(a + r) == Words(r)
  {
    assert a != [] ==> IsSpace(a[|a| - 1]);
    WordsAppendAtSpace(a, r);
    WordsBlank(a);
  }

  /** Blank text behind changes no word. */
  lemma WordsBeforeBlank(m: string, b: string)
    requires IsBlank(b)
    ensures Words(m + b) == Words(m)
  {
    assert b != [] ==> IsSpace(b[0]);
    WordsAppendAtSpace(m, b);
    WordsBlank(b);
  }

  /** Splitting a longer text never yields fewer words. */
  lemma {:induction false} WordsAppendMono(a: string, b: string)
    ensures |Words(a)| <= |Words(a + b)|
    decreases |a|
  {
    if a == [] {
    } else if IsSpace(a[0]) {
      assert (a + b)[1..] == a[1..] + b;
      WordsAppendMono(a[1..], b);
    } else {
      var n := TokenLen(a);
      if n < |a| {
        assert (a + b)[..n] == a[..n];
        TokenLenOf(a[..n], a[n..] + b);
        assert a + b == a[..n] + (a[n..] + b);
        assert (a + b)[n..] == a[n..] + b;
        WordsAppendMono(a[n..], b);
      } else {
        assert a[n..] == [];
      }
    }
  }

  /** A prefix of the text has no more words than the text. */
  lemma WordsPrefixFewer(s: string, k: nat)
    requires k <= |s|
    ensures |Words(s[..k])| <= |Words(s)|
  {
    assert s == s[..k] + s[k..];
    WordsAppendMono(s[..k], s[k..]);
  }

  /** The single-space form of a proper prefix of the words, plus the space and
      the following word, still fits in the raw text. */
  lemma JoinPrefixFits(s: string, k: nat)
    requires k <= |Words(s)|
    ensures |Join(Words(s)[..k])| <= |s|
    ensures 1 <= k < |Words(s)| ==> |Join(Words(s)[..k])| + 1 < |s|
  {
    var ws := Words(s);
    JoinWordsFits(s);
    JoinPrefixShorter(ws, k);
    if 1 <= k < |ws| {
      JoinPrefixStep(ws, k);
      JoinPrefixShorter(ws, k + 1);
    }
  }

  // --------------------------------------------------------------- searching

  /** `s.rfind(c)`: the index of the last `c`, or -1. */
  function RFind(s: string, c: char): (r: int)
    ensures -1 <= r < |s|
    ensures r >= 0 ==> s[r] == c
    ensures forall j :: r < j < |s| ==> s[j] != c
  {
    if s == [] then -1 else if s[|s| - 1] == c then |s| - 1 else RFind(s[..|s| - 1], c)
  }

  /** The last `c` in `s` is at `k` when `s[k]` is `c` and none follows it. */
  lemma RFindAt(s: string, c: char, k: nat)
    requires k < |s| && s[k] == c
    requires forall j :: k < j < |s| ==> s[j] != c
    ensures RFind(s, c) == k
  {
  }

  /** `c` does not occur in `s`. */
  lemma RFindNone(s: string, c: char)
    requires c !in s
    ensures RFind(s, c) == -1
  {
  }

  function Max(a: int, b: int): int {
    if a < b then b else a
  }

  // ------------------------------------------------------------ ASCII case

  /** `c.isalpha()`, restricted to ASCII letters. */
  predicate IsAlpha(c: char) {
    ('a' <= c <= 'z') || ('A' <= c <= 'Z')
  }

  /** `c.lower()`, restricted to ASCII letters. */
  function LowerChar(c: char): (r: char)
    ensures !('A' <= r <= 'Z')
    ensures IsAlpha(r) <==> IsAlpha(c)
  {
    if 'A' <= c <= 'Z' then (c as int + 32) as char else c
  }

  /** `s.lower()`, restricted to ASCII letters. */
  function Lower(s: string): (r: string)
    ensures |r| == |s|
    ensures forall i :: 0 <= i < |s| ==> r[i] == LowerChar(s[i])
  {
    seq(|s|, i requires 0 <= i < |s| => LowerChar(s[i]))
  }

  /** Number of letters in `s` (`sum(1 for c in s if c.isalpha())`). */
  function AlphaCount(s: string): (n: nat)
    ensures n <= |s|
  {
    if s == [] then 0 else (if IsAlpha(s[0]) then 1 else 0) + AlphaCount(s[1..])
  }
}
