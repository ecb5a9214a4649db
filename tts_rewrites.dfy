/**
 * The individual rewrites that `clean_text_for_tts` chains together
 * (server/utils/tts_text_cleaner.py:37-101), one function per `re.sub` or
 * `str.replace` call.
 *
 * `re.sub` is defined once, as `ReSub`, over a `Pattern`: a function that says
 * whether the pattern matches at the start of a text, how many characters the
 * match covers and what replaces it.  None of the patterns can match the empty
 * string, and in each of them a greedy repetition is followed by a character the
 * repetition cannot take, so a repetition always takes the whole run; the one
 * lazy repetition (code blocks) takes the shortest.
 */
module TtsRewrites {
  import opened PyStr
  import opened Wrappers

  // ------------------------------------------------------- the re.sub engine

  /** A match at the current position: its length and its replacement. */
  datatype Match = Match(len: nat, repl: string)

  type Pattern = string -> Option<Match>

  /** Wherever the pattern matches, it covers at least one character. */
  ghost predicate Consumes(at: Pattern) {
    forall t :: at(t).Some? ==> 1 <= at(t).value.len <= |t|
  }

  /** `re.sub(pattern, repl, s)`: scanning from the left, each leftmost match is
      replaced and the scan resumes after it; where nothing matches, the
      character is kept and the scan moves on by one. */
  function ReSub(s: string, at: Pattern): string
    requires Consumes(at)
    decreases |s|
  {
    if s == [] then []
    else match at(s)
      case Some(m) => m.repl + ReSub(s[m.len..], at)
      case None => [s[0]] + ReSub(s[1..], at)
  }

  lemma ReSubAtMatch(s: string, at: Pattern)
    requires Consumes(at) && s != [] && at(s).Some?
    ensures ReSub(s, at) == at(s).value.repl + ReSub(s[at(s).value.len..], at)
  {
  }

  lemma ReSubNoMatch(s: string, at: Pattern)
    requires Consumes(at) && s != [] && at(s).None?
    ensures ReSub(s, at) == [s[0]] + ReSub(s[1..], at)
  {
  }

  /** Every character of `r` is a character of `s` or of `extra`. */
  predicate CharsFrom(r: string, s: string, extra: string) {
    forall c :: c in r ==> c in s || c in extra
  }

  /** Drawing on `m`, which draws on `s`, is drawing on `s`. */
  lemma CharsFromTrans(r: string, m: string, s: string, e1: string, e2: string)
    requires CharsFrom(r, m, e1) && CharsFrom(m, s, e2)
    ensures CharsFrom(r, s, e1 + e2)
  {
    forall c | c in r ensures c in s || c in e1 + e2 {
      if c in e1 {
        assert c in e1 + e2;
      } else if c in e2 {
        assert c in e1 + e2;
      }
    }
  }

  lemma SplitAt(s: string, k: nat)
    requires k <= |s|
    ensures s[..k] + s[k..] == s
  {
  }

  lemma InSuffix(s: string, k: nat, c: char)
    requires k <= |s| && c in s[k..]
    ensures c in s
  {
    var i :| 0 <= i < |s[k..]| && s[k..][i] == c;
    assert s[k + i] == c;
  }

  /** When every replacement draws only on the text it is tried on and on
      `extra`, so does the whole result. */
  lemma {:induction false} ReSubCharsFrom(s: string, at: Pattern, extra: string)
    requires Consumes(at)
    requires forall t :: at(t).Some? ==> CharsFrom(at(t).value.repl, t, extra)
    ensures CharsFrom(ReSub(s, at), s, extra)
    decreases |s|
  {
    if s != [] {
      var k := if at(s).Some? then at(s).value.len else 1;
      ReSubCharsFrom(s[k..], at, extra);
      forall c | c in ReSub(s[k..], at) && c !in extra ensures c in s {
        InSuffix(s, k, c);
      }
    }
  }

  /** A pattern that needs the character `c` leaves text without `c` alone. */
  lemma {:induction false} ReSubWithout(s: string, at: Pattern, c: char)
    requires Consumes(at)
    requires forall t :: c !in t ==> at(t).None?
    requires c !in s
    ensures ReSub(s, at) == s
    decreases |s|
  {
    if s != [] {
      ReSubWithout(s[1..], at, c);
    }
  }

  /** A pattern whose replacement is the matched text changes nothing. */
  lemma {:induction false} ReSubSelf(s: string, at: Pattern)
    requires Consumes(at)
    requires forall t :: at(t).Some? ==> at(t).value.repl == Take(t, at(t).value.len)
    ensures ReSub(s, at) == s
    decreases |s|
  {
    if s != [] {
      var k := if at(s).Some? then at(s).value.len else 1;
      ReSubSelf(s[k..], at);
      ReSubSelfStep(s, at, k);
    }
  }

  lemma ReSubSelfStep(s: string, at: Pattern, k: nat)
    requires Consumes(at) && s != []
    requires at(s).Some? ==> at(s).value.repl == Take(s, at(s).value.len)
    requires k == (if at(s).Some? then at(s).value.len else 1)
    requires ReSub(s[k..], at) == s[k..]
    ensures ReSub(s, at) == s
  {
    assert s == s[..k] + s[k..];
  }

  // ----------------------------------------------------- character classes

  datatype CharClass = Only(c: char) | Special | Whitespace | DigitOrSpace | NotLetter | AnyOf(cs: string) | SpaceOr(cs: string)

  /** The characters removed at line 70: @ # $ % ^ & * | \ / < > ~ ` = + */
  const SpecialChars: string := "@#$%^&*|\\/<>~`=+"

  predicate InClass(c: char, cls: CharClass) {
    match cls
    case Only(x) => c == x
    case Special => c in SpecialChars
    case Whitespace => IsSpace(c)
    case DigitOrSpace => ('0' <= c <= '9') || IsSpace(c)
    case NotLetter => !IsAlpha(c)
    case AnyOf(cs) => c in cs
    case SpaceOr(cs) => IsSpace(c) || c in cs
  }

  /** No character of `s` is in the class. */
  predicate NoneOf(s: string, cls: CharClass) {
    forall i :: 0 <= i < |s| ==> !InClass(s[i], cls)
  }

  /** Length of the run of class characters that starts `s`. */
  function RunOf(s: string, cls: CharClass): (n: nat)
    ensures n <= |s|
    ensures forall i :: 0 <= i < n ==> InClass(s[i], cls)
    ensures n == |s| || !InClass(s[n], cls)
  {
    if s != [] && InClass(s[0], cls) then 1 + RunOf(s[1..], cls) else 0
  }

  /** Length of the run of characters other than `c` that starts `s`. */
  function RunNot(s: string, c: char): (n: nat)
    ensures n <= |s|
    ensures forall i :: 0 <= i < n ==> s[i] != c
    ensures n == |s| || s[n] == c
  {
    if s != [] && s[0] != c then 1 + RunNot(s[1..], c) else 0
  }

  predicate StartsWith(s: string, p: string) {
    |p| <= |s| && s[..|p|] == p
  }

  /** `p in s` for strings: `p` occurs somewhere in `s`. */
  predicate Contains(s: string, p: string) {
    exists i :: 0 <= i <= |s| && StartsWith(s[i..], p)
  }

  /** The pattern `[cls]{minLen,}` replaced by `repl`. */
  function RunAt(t: string, cls: CharClass, minLen: nat, repl: string): (m: Option<Match>)
    ensures m.Some? ==> 1 <= m.value.len <= |t| && m.value.repl == repl
    ensures m.Some? ==> forall i :: 0 <= i < m.value.len ==> InClass(t[i], cls)
    ensures m.Some? ==> m.value.len == |t| || !InClass(t[m.value.len], cls)
  {
    var n := RunOf(t, cls);
    if n >= minLen && n >= 1 then Some(Match(n, repl)) else None
  }

  lemma RunAtNeedsClass(cls: CharClass, minLen: nat, repl: string)
    ensures forall t :: (forall i :: 0 <= i < |t| ==> !InClass(t[i], cls)) ==> RunAt(t, cls, minLen, repl).None?
  {
    forall t | forall i :: 0 <= i < |t| ==> !InClass(t[i], cls)
      ensures RunAt(t, cls, minLen, repl).None?
    {
      if t != [] {
        assert !InClass(t[0], cls);
      }
    }
  }

  // ------------------------------------------------- characters kept in order

  /** The characters of `s` outside the class, in order. */
  function Without(s: string, cls: CharClass): string {
    if s == [] then [] else (if InClass(s[0], cls) then [] else [s[0]]) + Without(s[1..], cls)
  }

  /** The ASCII letters of `s`, in order. */
  function Letters(s: string): string {
    Without(s, NotLetter)
  }

  lemma WithoutCons(x: char, u: string, cls: CharClass)
    ensures Without([x] + u, cls) == (if InClass(x, cls) then [] else [x]) + Without(u, cls)
  {
    assert ([x] + u)[1..] == u;
  }

  lemma {:induction false} WithoutAppend(a: string, b: string, cls: CharClass)
    ensures Without(a + b, cls) == Without(a, cls) + Without(b, cls)
    decreases |a|
  {
    if a == [] {
      assert a + b == b;
    } else {
      assert (a + b)[1..] == a[1..] + b;
      WithoutAppend(a[1..], b, cls);
    }
  }

  /** Text made only of class characters leaves nothing. */
  lemma {:induction false} WithoutAll(u: string, cls: CharClass)
    requires forall i :: 0 <= i < |u| ==> InClass(u[i], cls)
    ensures Without(u, cls) == []
    decreases |u|
  {
    if u != [] {
      assert forall i :: 0 <= i < |u[1..]| ==> u[1..][i] == u[i + 1];
      WithoutAll(u[1..], cls);
    }
  }

  /** Removing the characters of a smaller class first changes nothing. */
  lemma {:induction false} WithoutWithin(s: string, a: CharClass, b: CharClass)
    requires forall c :: InClass(c, a) ==> InClass(c, b)
    ensures Without(Without(s, a), b) == Without(s, b)
    decreases |s|
  {
    if s != [] {
      var h := if InClass(s[0], a) then [] else [s[0]];
      WithoutWithin(s[1..], a, b);
      WithoutAppend(h, Without(s[1..], a), b);
    }
  }

  /** What is kept outside a class is kept outside any larger class. */
  lemma KeptWithin(r: string, s: string, a: CharClass, b: CharClass)
    requires forall c :: InClass(c, a) ==> InClass(c, b)
    requires Without(r, a) == Without(s, a)
    ensures Without(r, b) == Without(s, b)
  {
    WithoutWithin(r, a, b);
    WithoutWithin(s, a, b);
  }

  /** When every replacement keeps the characters outside the class of the text
      it replaces, the whole result keeps those of `s`, in order. */
  lemma {:induction false} ReSubKeeps(s: string, at: Pattern, cls: CharClass)
    requires Consumes(at)
    requires forall t :: at(t).Some? ==> Without(at(t).value.repl, cls) == Without(Take(t, at(t).value.len), cls)
    ensures Without(ReSub(s, at), cls) == Without(s, cls)
    decreases |s|
  {
    if s != [] {
      var k := if at(s).Some? then at(s).value.len else 1;
      ReSubKeeps(s[k..], at, cls);
      ReSubKeepsStep(s, at, cls, k);
    }
  }

  lemma ReSubKeepsStep(s: string, at: Pattern, cls: CharClass, k: nat)
    requires Consumes(at) && s != []
    requires at(s).Some? ==> Without(at(s).value.repl, cls) == Without(Take(s, at(s).value.len), cls)
    requires k == (if at(s).Some? then at(s).value.len else 1)
    requires Without(ReSub(s[k..], at), cls) == Without(s[k..], cls)
    ensures Without(ReSub(s, at), cls) == Without(s, cls)
  {
    var head := if at(s).Some? then at(s).value.repl else s[..1];
    assert ReSub(s, at) == head + ReSub(s[k..], at);
    WithoutAppend(head, ReSub(s[k..], at), cls);
    SplitAt(s, k);
    WithoutAppend(s[..k], s[k..], cls);
  }

  /** Where the pattern matches nowhere, `re.sub` changes nothing. */
  lemma {:induction false} ReSubNowhere(s: string, at: Pattern)
    requires Consumes(at)
    requires forall i :: 0 <= i < |s| ==> at(s[i..]).None?
    ensures ReSub(s, at) == s
    decreases |s|
  {
    if s != [] {
      assert s[0..] == s;
      forall i | 0 <= i < |s[1..]| ensures at(s[1..][i..]).None? {
        assert s[1..][i..] == s[i + 1..];
      }
      ReSubNowhere(s[1..], at);
    }
  }

  // ------------------------------------------------------ lines 37-59: markup

  const Fence: string := "```"

  predicate FenceAt(s: string, j: nat) {
    j + 3 <= |s| && s[j..j + 3] == Fence
  }

  /** Index of the first "```" in `s` at or after `i`. */
  function NextFence(s: string, i: nat): (r: Option<nat>)
    ensures r.Some? ==> i <= r.value && FenceAt(s, r.value)
    ensures r.Some? ==> forall j: nat :: i <= j < r.value ==> !FenceAt(s, j)
    ensures r.None? ==> forall j: nat :: i <= j ==> !FenceAt(s, j)
    decreases |s| - i
  {
    if i + 3 > |s| then None
    else if FenceAt(s, i) then Some(i)
    else NextFence(s, i + 1)
  }

  /** "```" then the shortest run of any characters, then "```". */
  function CodeBlockAt(t: string): (m: Option<Match>)
    ensures m.Some? ==> 6 <= m.value.len <= |t| && m.value.repl == ""
    ensures m.Some? ==> t[0] == '`'
  {
    if StartsWith(t, Fence) then
      match NextFence(t, 3)
      case Some(j) => Some(Match(j + 3, ""))
      case None => None
    else None
  }

  /** `re.sub(r'```[\s\S]*?```', '', s)` (line 37). */
  function RemoveCodeBlocks(s: string): (r: string)
    ensures CharsFrom(r, s, "")
    ensures '`' !in s ==> r == s
  {
    ReSubCharsFrom(s, CodeBlockAt, "");
    if '`' !in s then ReSubWithout(s, CodeBlockAt, '`'); ReSub(s, CodeBlockAt)
    else ReSub(s, CodeBlockAt)
  }

  /** `d([^x]+)d`, where `x` is the first character of the delimiter `d`,
      replaced by the text between the delimiters. */
  function DelimitedAt(t: string, d: string): (m: Option<Match>)
    ensures m.Some? ==> 1 <= m.value.len <= |t| && CharsFrom(m.value.repl, t, "")
    ensures m.Some? ==> d != [] && t[0] == d[0]
  {
    if d != [] && StartsWith(t, d) then
      var k := |d| + RunNot(t[|d|..], d[0]);
      if k > |d| && StartsWith(t[k..], d) then
        assert forall c :: c in t[|d|..k] ==> c in t by {
          forall c | c in t[|d|..k] ensures c in t {
            var i :| 0 <= i < k - |d| && t[|d|..k][i] == c;
            assert t[|d| + i] == c;
          }
        }
        Some(Match(k + |d|, t[|d|..k]))
      else None
    else None
  }

  /** `re.sub` of `d([^x]+)d` by its inner text, for the delimiter `d`. */
  function Unwrap(s: string, d: string): (r: string)
    requires d != []
    ensures CharsFrom(r, s, "")
    ensures d[0] !in s ==> r == s
  {
    var at := t => DelimitedAt(t, d);
    ReSubCharsFrom(s, at, "");
    if d[0] !in s then ReSubWithout(s, at, d[0]); ReSub(s, at)
    else ReSub(s, at)
  }

  /** `re.sub(r'`([^`]+)`', r'\1', s)` (line 40). */
  function UnwrapInlineCode(s: string): (r: string)
    ensures CharsFrom(r, s, "")
    ensures '`' !in s ==> r == s
  {
    Unwrap(s, "`")
  }

  /** `re.sub(r'\*\*([^\*]+)\*\*', r'\1', s)` (line 43). */
  function UnwrapDoubleStars(s: string): (r: string)
    ensures CharsFrom(r, s, "")
    ensures '*' !in s ==> r == s
  {
    Unwrap(s, "**")
  }

  /** `re.sub(r'__([^_]+)__', r'\1', s)` (line 44). */
  function UnwrapDoubleUnderscores(s: string): (r: string)
    ensures CharsFrom(r, s, "")
    ensures '_' !in s ==> r == s
  {
    Unwrap(s, "__")
  }

  /** `re.sub(r'\*([^\*]+)\*', r'\1', s)` (line 45). */
  function UnwrapStars(s: string): (r: string)
    ensures CharsFrom(r, s, "")
    ensures '*' !in s ==> r == s
  {
    Unwrap(s, "*")
  }

  /** `re.sub(r'_([^_]+)_', r'\1', s)` (line 46). */
  function UnwrapUnderscores(s: string): (r: string)
    ensures CharsFrom(r, s, "")
    ensures '_' !in s ==> r == s
  {
    Unwrap(s, "_")
  }

  /** `#{1,6}\s+` at the start of a line: one to six '#' (as many as there
      are, up to six), then the whole run of whitespace after them. */
  function HeaderAt(t: string): (m: Option<Match>)
    ensures m.Some? ==> 1 <= m.value.len <= |t| && m.value.repl == "" && t[0] == '#'
  {
    var h := RunOf(t, Only('#'));
    var k := if h < 6 then h else 6;
    if 1 <= k < |t| && IsSpace(t[k]) then Some(Match(k + RunOf(t[k..], Whitespace), ""))
    else None
  }

  /** `re.sub(r'^#{1,6}\s+', '', s, flags=re.MULTILINE)` (line 49).  With
      MULTILINE, `^` holds at the start of the text and just after each '\n';
      `atLineStart` says whether it holds at the start of `s`. */
  function RemoveHeadersFrom(s: string, atLineStart: bool): (r: string)
    ensures CharsFrom(r, s, "")
    ensures '#' !in s ==> r == s
    decreases |s|
  {
    if s == [] then []
    else
      var m := if atLineStart then HeaderAt(s) else None;
      if m.Some? then
        var n := m.value.len;
        var r := RemoveHeadersFrom(s[n..], s[n - 1] == '\n');
        assert forall c :: c in r ==> c in s by {
          forall c | c in r ensures c in s {
            InSuffix(s, n, c);
          }
        }
        r
      else
        var r := RemoveHeadersFrom(s[1..], s[0] == '\n');
        assert forall c :: c in r ==> c in s by {
          forall c | c in r ensures c in s {
            InSuffix(s, 1, c);
          }
        }
        assert '#' !in s ==> '#' !in s[1..] by {
          if '#' in s[1..] {
            InSuffix(s, 1, '#');
          }
        }
        [s[0]] + r
  }

  function RemoveHeaders(s: string): (r: string)
    ensures CharsFrom(r, s, "")
    ensures '#' !in s ==> r == s
  {
    RemoveHeadersFrom(s, true)
  }

  /** `\[([^\]]+)\]\([^\)]+\)`, replaced by the link text. */
  function LinkAt(t: string): (m: Option<Match>)
    ensures m.Some? ==> 1 <= m.value.len <= |t| && CharsFrom(m.value.repl, t, "") && t[0] == '['
  {
    if t != [] && t[0] == '[' then
      var k := 1 + RunNot(t[1..], ']');
      if k >= 2 && k + 1 < |t| && t[k] == ']' && t[k + 1] == '(' then
        var e := k + 2 + RunNot(t[k + 2..], ')');
        if e >= k + 3 && e < |t| && t[e] == ')' then
          assert forall c :: c in t[1..k] ==> c in t by {
            forall c | c in t[1..k] ensures c in t {
              var i :| 0 <= i < k - 1 && t[1..k][i] == c;
              assert t[1 + i] == c;
            }
          }
          Some(Match(e + 1, t[1..k]))
        else None
      else None
    else None
  }

  /** `re.sub(r'\[([^\]]+)\]\([^\)]+\)', r'\1', s)` (line 52). */
  function UnwrapLinks(s: string): (r: string)
    ensures CharsFrom(r, s, "")
    ensures '[' !in s ==> r == s
  {
    ReSubCharsFrom(s, LinkAt, "");
    if '[' !in s then ReSubWithout(s, LinkAt, '['); ReSub(s, LinkAt)
    else ReSub(s, LinkAt)
  }

  /** `https?://[^\s]+`, replaced by "link". */
  function UrlAt(t: string): (m: Option<Match>)
    ensures m.Some? ==> 1 <= m.value.len <= |t| && m.value.repl == "link" && t[0] == 'h'
    ensures m.Some? ==> StartsWith(t, "http")
  {
    var p := if StartsWith(t, "https://") then 8 else if StartsWith(t, "http://") then 7 else 0;
    if p > 0 && TokenLen(t[p..]) >= 1 then
      assert t[..4] == t[..p][..4];
      Some(Match(p + TokenLen(t[p..]), "link"))
    else None
  }

  /** `re.sub(r'https?://[^\s]+', 'link', s)` (line 55): text without "http"
      is unchanged. */
  function ReplaceUrls(s: string): (r: string)
    ensures CharsFrom(r, s, "link")
    ensures 'h' !in s ==> r == s
    ensures !Contains(s, "http") ==> r == s
  {
    ReSubCharsFrom(s, UrlAt, "link");
    if !Contains(s, "http") then
      forall i | 0 <= i < |s| ensures UrlAt(s[i..]).None? {
        assert !StartsWith(s[i..], "http");
      }
      ReSubNowhere(s, UrlAt);
      ReSub(s, UrlAt)
    else if 'h' !in s then ReSubWithout(s, UrlAt, 'h'); ReSub(s, UrlAt)
    else ReSub(s, UrlAt)
  }

  /** `www\.[^\s]+`, replaced by "link". */
  function WwwAt(t: string): (m: Option<Match>)
    ensures m.Some? ==> 1 <= m.value.len <= |t| && m.value.repl == "link" && t[0] == 'w'
    ensures m.Some? ==> StartsWith(t, "www.")
  {
    if StartsWith(t, "www.") && TokenLen(t[4..]) >= 1 then Some(Match(4 + TokenLen(t[4..]), "link"))
    else None
  }

  /** `re.sub(r'www\.[^\s]+', 'link', s)` (line 56): text without "www." is
      unchanged. */
  function ReplaceWwwUrls(s: string): (r: string)
    ensures CharsFrom(r, s, "link")
    ensures 'w' !in s ==> r == s
    ensures !Contains(s, "www.") ==> r == s
  {
    ReSubCharsFrom(s, WwwAt, "link");
    if !Contains(s, "www.") then
      forall i | 0 <= i < |s| ensures WwwAt(s[i..]).None? {
        assert !StartsWith(s[i..], "www.");
      }
      ReSubNowhere(s, WwwAt);
      ReSub(s, WwwAt)
    else if 'w' !in s then ReSubWithout(s, WwwAt, 'w'); ReSub(s, WwwAt)
    else ReSub(s, WwwAt)
  }

  /** `\S+@\S+\.\S+`, replaced by "email address".  All of it lies in the run of
      non-whitespace characters that starts `t`, and the last `\S+` takes the
      rest of that run, so the match is the whole run when the run has an '@'
      after its first character and a '.' at least two characters after that
      '@' with at least one character after the '.'. */
  function EmailAt(t: string): (m: Option<Match>)
    ensures m.Some? ==> 1 <= m.value.len <= |t| && m.value.repl == "email address" && '@' in t
  {
    var e := TokenLen(t);
    if exists a, d :: 1 <= a && a + 2 <= d && d + 2 <= e && t[a] == '@' && t[d] == '.' then
      Some(Match(e, "email address"))
    else None
  }

  /** `re.sub(r'\S+@\S+\.\S+', 'email address', s)` (line 59). */
  function ReplaceEmails(s: string): (r: string)
    ensures CharsFrom(r, s, "email address")
    ensures '@' !in s ==> r == s
  {
    ReSubCharsFrom(s, EmailAt, "email address");
    if '@' !in s then ReSubWithout(s, EmailAt, '@'); ReSub(s, EmailAt)
    else ReSub(s, EmailAt)
  }

  // ------------------------------------------- lines 62-65: repeated marks

  /** Every character of `u` is `c`. */
  predicate AllOf(u: string, c: char) {
    forall i :: 0 <= i < |u| ==> u[i] == c
  }

  /** No run of `c` in `s` is `n` characters long or longer. */
  predicate RunsBelow(s: string, c: char, n: int) {
    forall i :: 0 <= i < |s| ==> RunOf(s[i..], Only(c)) < n
  }

  /** The pattern `[c]{minLen,}` replaced by `repl`. */
  function RepeatAt(c: char, minLen: nat, repl: string): Pattern {
    t => RunAt(t, Only(c), minLen, repl)
  }

  /** The replacement of a run of `c` draws only on `c`, which the run starts
      with, and leaves nothing but `c`s, as the run does. */
  lemma RepeatsReplace(c: char, minLen: nat, repl: string)
    requires AllOf(repl, c)
    ensures forall t :: RunAt(t, Only(c), minLen, repl).Some? ==> CharsFrom(RunAt(t, Only(c), minLen, repl).value.repl, t, "")
    ensures forall t :: RunAt(t, Only(c), minLen, repl).Some? ==> Without(RunAt(t, Only(c), minLen, repl).value.repl, Only(c)) == Without(Take(t, RunAt(t, Only(c), minLen, repl).value.len), Only(c))
  {
    forall t | RunAt(t, Only(c), minLen, repl).Some?
      ensures CharsFrom(repl, t, "")
      ensures Without(repl, Only(c)) == Without(Take(t, RunAt(t, Only(c), minLen, repl).value.len), Only(c))
    {
      assert InClass(t[0], Only(c));
      WithoutAll(repl, Only(c));
      WithoutAll(t[..RunAt(t, Only(c), minLen, repl).value.len], Only(c));
    }
  }

  lemma {:induction false} RunOfAppend(a: string, b: string, cls: CharClass)
    requires forall i :: 0 <= i < |a| ==> InClass(a[i], cls)
    ensures RunOf(a + b, cls) == |a| + RunOf(b, cls)
    decreases |a|
  {
    if a == [] {
      assert a + b == b;
    } else {
      assert (a + b)[1..] == a[1..] + b;
      assert forall i :: 0 <= i < |a[1..]| ==> a[1..][i] == a[i + 1];
      RunOfAppend(a[1..], b, cls);
    }
  }

  /** Text that does not start with `c` keeps its first character. */
  lemma RepeatsStartOther(u: string, c: char, minLen: nat, repl: string)
    requires u == [] || u[0] != c
    ensures RunOf(ReSub(u, RepeatAt(c, minLen, repl)), Only(c)) == 0
  {
    if u != [] {
      ReSubNoMatch(u, RepeatAt(c, minLen, repl));
    }
  }

  /** The run of `c` that starts the result: `repl` for a run long enough to
      match, the run itself otherwise. */
  lemma {:induction false} RepeatsLeadingRun(t: string, c: char, minLen: nat, repl: string)
    requires AllOf(repl, c)
    ensures RunOf(ReSub(t, RepeatAt(c, minLen, repl)), Only(c)) == (if RunOf(t, Only(c)) >= minLen && RunOf(t, Only(c)) >= 1 then |repl| else RunOf(t, Only(c)))
    decreases |t|
  {
    if t != [] {
      var n := RunOf(t, Only(c));
      if n >= minLen && n >= 1 {
        RepeatsRunMatched(t, c, minLen, repl);
      } else if t[0] != c {
        RepeatsStartOther(t, c, minLen, repl);
      } else {
        RepeatsLeadingRun(t[1..], c, minLen, repl);
        RepeatsRunShort(t, c, minLen, repl);
      }
    }
  }

  lemma RepeatsRunMatched(t: string, c: char, minLen: nat, repl: string)
    requires AllOf(repl, c) && t != []
    requires RunOf(t, Only(c)) >= minLen && RunOf(t, Only(c)) >= 1
    ensures RunOf(ReSub(t, RepeatAt(c, minLen, repl)), Only(c)) == |repl|
  {
    var n := RunOf(t, Only(c));
    var at := RepeatAt(c, minLen, repl);
    ReSubAtMatch(t, at);
    RepeatsStartOther(t[n..], c, minLen, repl);
    RunOfAppend(repl, ReSub(t[n..], at), Only(c));
  }

  lemma RepeatsRunShort(t: string, c: char, minLen: nat, repl: string)
    requires t != [] && t[0] == c && RunOf(t, Only(c)) < minLen
    requires RunOf(ReSub(t[1..], RepeatAt(c, minLen, repl)), Only(c)) == RunOf(t[1..], Only(c))
    ensures RunOf(ReSub(t, RepeatAt(c, minLen, repl)), Only(c)) == RunOf(t, Only(c))
  {
    var at := RepeatAt(c, minLen, repl);
    ReSubNoMatch(t, at);
    assert ([t[0]] + ReSub(t[1..], at))[1..] == ReSub(t[1..], at);
  }

  /** After the rewrite no run of `c` is longer than `repl` or than the runs
      too short to match. */
  lemma {:induction false} RepeatsRunsBelow(s: string, c: char, minLen: nat, repl: string)
    requires AllOf(repl, c)
    ensures RunsBelow(ReSub(s, RepeatAt(c, minLen, repl)), c, Max(|repl| + 1, minLen))
    decreases |s|
  {
    if s != [] {
      var at := RepeatAt(c, minLen, repl);
      var k := if at(s).Some? then at(s).value.len else 1;
      RepeatsRunsBelow(s[k..], c, minLen, repl);
      if at(s).Some? {
        RepeatsBelowMatched(s, c, minLen, repl);
      } else {
        RepeatsLeadingRun(s[1..], c, minLen, repl);
        RepeatsBelowOther(s, c, minLen, repl);
      }
    }
  }

  lemma RepeatsBelowMatched(s: string, c: char, minLen: nat, repl: string)
    requires AllOf(repl, c) && s != [] && RunAt(s, Only(c), minLen, repl).Some?
    requires RunsBelow(ReSub(s[RunOf(s, Only(c))..], RepeatAt(c, minLen, repl)), c, Max(|repl| + 1, minLen))
    ensures RunsBelow(ReSub(s, RepeatAt(c, minLen, repl)), c, Max(|repl| + 1, minLen))
  {
    var at := RepeatAt(c, minLen, repl);
    var n := RunOf(s, Only(c));
    ReSubAtMatch(s, at);
    RepeatsStartOther(s[n..], c, minLen, repl);
    BelowAfterRepl(repl, ReSub(s[n..], at), c, Max(|repl| + 1, minLen));
  }

  lemma RepeatsBelowOther(s: string, c: char, minLen: nat, repl: string)
    requires AllOf(repl, c) && s != [] && RunAt(s, Only(c), minLen, repl).None?
    requires RunsBelow(ReSub(s[1..], RepeatAt(c, minLen, repl)), c, Max(|repl| + 1, minLen))
    requires RunOf(ReSub(s[1..], RepeatAt(c, minLen, repl)), Only(c)) == (if RunOf(s[1..], Only(c)) >= minLen && RunOf(s[1..], Only(c)) >= 1 then |repl| else RunOf(s[1..], Only(c)))
    ensures RunsBelow(ReSub(s, RepeatAt(c, minLen, repl)), c, Max(|repl| + 1, minLen))
  {
    var at := RepeatAt(c, minLen, repl);
    ReSubNoMatch(s, at);
    BelowAfterChar(s[0], ReSub(s[1..], at), c, Max(|repl| + 1, minLen));
  }

  /** A run of `c` shorter than `n`, then text that does not start with `c`
      and has no run of `n`. */
  lemma BelowAfterRepl(head: string, rest: string, c: char, n: int)
    requires AllOf(head, c) && |head| < n
    requires RunOf(rest, Only(c)) == 0 && RunsBelow(rest, c, n)
    ensures RunsBelow(head + rest, c, n)
  {
    var r := head + rest;
    forall i | 0 <= i < |r| ensures RunOf(r[i..], Only(c)) < n {
      if i < |head| {
        RunInHead(head, rest, c, i);
      } else {
        assert r[i..] == rest[i - |head|..];
      }
    }
  }

  /** A run that starts inside `head` stops where `head` does. */
  lemma RunInHead(head: string, rest: string, c: char, i: nat)
    requires AllOf(head, c) && i < |head| && RunOf(rest, Only(c)) == 0
    ensures RunOf((head + rest)[i..], Only(c)) == |head| - i
  {
    assert (head + rest)[i..] == head[i..] + rest;
    assert forall j :: 0 <= j < |head[i..]| ==> head[i..][j] == head[i + j];
    RunOfAppend(head[i..], rest, Only(c));
  }

  /** One character, then text with no run of `n`, where the run the
      character starts is shorter than `n` too. */
  lemma BelowAfterChar(x: char, rest: string, c: char, n: int)
    requires RunsBelow(rest, c, n) && RunOf([x] + rest, Only(c)) < n
    ensures RunsBelow([x] + rest, c, n)
  {
    var r := [x] + rest;
    forall i | 0 <= i < |r| ensures RunOf(r[i..], Only(c)) < n {
      if i == 0 {
        assert r[0..] == r;
      } else {
        assert r[i..] == rest[i - 1..];
      }
    }
  }

  /** Where no run reaches `minLen`, nothing matches. */
  lemma RepeatsNowhere(s: string, c: char, minLen: nat, repl: string)
    requires RunsBelow(s, c, minLen)
    ensures ReSub(s, RepeatAt(c, minLen, repl)) == s
  {
    ReSubNowhere(s, RepeatAt(c, minLen, repl));
  }

  /** `re.sub(r'[c]{minLen,}', repl, s)`: runs of at least `minLen` copies of
      `c` become `repl` (lines 62-65).  Every other character stays, in order,
      no run of `c` longer than `repl` or than `minLen - 1` is left, and text
      whose runs are all shorter than `minLen` is unchanged. */
  function CollapseRepeats(s: string, c: char, minLen: nat, repl: string): (r: string)
    requires AllOf(repl, c)
    ensures CharsFrom(r, s, "")
    ensures Without(r, Only(c)) == Without(s, Only(c))
    ensures RunsBelow(r, c, Max(|repl| + 1, minLen))
    ensures RunsBelow(s, c, minLen) ==> r == s
  {
    var at := RepeatAt(c, minLen, repl);
    RepeatsReplace(c, minLen, repl);
    ReSubCharsFrom(s, at, "");
    ReSubKeeps(s, at, Only(c));
    RepeatsRunsBelow(s, c, minLen, repl);
    if RunsBelow(s, c, minLen) then RepeatsNowhere(s, c, minLen, repl); ReSub(s, at)
    else ReSub(s, at)
  }

  // ---------------------------------------------- lines 70-101: spacing

  /** When the pattern matches wherever the text starts with a character of the
      class, and no replacement holds one, the result holds none. */
  lemma {:induction false} ReSubClears(s: string, at: Pattern, cls: CharClass)
    requires Consumes(at)
    requires forall t :: t != [] && InClass(t[0], cls) ==> at(t).Some?
    requires forall t :: at(t).Some? ==> NoneOf(at(t).value.repl, cls)
    ensures NoneOf(ReSub(s, at), cls)
    decreases |s|
  {
    if s != [] {
      var k := if at(s).Some? then at(s).value.len else 1;
      ReSubClears(s[k..], at, cls);
      var head := if at(s).Some? then at(s).value.repl else [s[0]];
      var r := ReSub(s[k..], at);
      assert ReSub(s, at) == head + r;
      forall i | 0 <= i < |head + r| ensures !InClass((head + r)[i], cls) {
        if i >= |head| {
          assert (head + r)[i] == r[i - |head|];
        }
      }
    }
  }

  function SpecialRunAt(t: string): (m: Option<Match>)
    ensures m.Some? ==> 1 <= m.value.len <= |t| && m.value.repl == " "
    ensures m.Some? ==> InClass(t[0], Special)
    ensures m.Some? ==> Without(m.value.repl, SpaceOr(SpecialChars)) == Without(Take(t, m.value.len), SpaceOr(SpecialChars))
    ensures t != [] && InClass(t[0], Special) ==> m.Some?
  {
    var m := RunAt(t, Special, 1, " ");
    if m.Some? then
      WithoutAll(" ", SpaceOr(SpecialChars));
      WithoutAll(t[..m.value.len], SpaceOr(SpecialChars));
      m
    else m
  }

  /** `re.sub(r'[@#$%^&*|\\/<>~`=+]+', ' ', s)` (line 70): every run of special
      characters becomes one space; every other character except whitespace
      stays, in order, and text without special characters is unchanged. */
  function RemoveSpecialChars(s: string): (r: string)
    ensures NoneOf(r, Special)
    ensures CharsFrom(r, s, " ")
    ensures Without(r, SpaceOr(SpecialChars)) == Without(s, SpaceOr(SpecialChars))
    ensures NoneOf(s, Special) ==> r == s
  {
    SpecialRunsClear(s);
    ReSubCharsFrom(s, SpecialRunAt, " ");
    SpecialRunsKeep(s);
    if NoneOf(s, Special) then SpecialNowhere(s); ReSub(s, SpecialRunAt)
    else ReSub(s, SpecialRunAt)
  }

  /** Replacing special runs by a space leaves no special character. */
  lemma SpecialRunsClear(s: string)
    ensures NoneOf(ReSub(s, SpecialRunAt), Special)
  {
    assert NoneOf(" ", Special) by {
      assert " "[0] == ' ' && ' ' !in SpecialChars;
    }
    ReSubClears(s, SpecialRunAt, Special);
  }

  /** Replacing special runs by a space keeps every other non-space character. */
  lemma SpecialRunsKeep(s: string)
    ensures Without(ReSub(s, SpecialRunAt), SpaceOr(SpecialChars)) == Without(s, SpaceOr(SpecialChars))
  {
    ReSubKeeps(s, SpecialRunAt, SpaceOr(SpecialChars));
  }

  lemma SpecialNowhere(s: string)
    requires NoneOf(s, Special)
    ensures ReSub(s, SpecialRunAt) == s
  {
    forall i | 0 <= i < |s| ensures SpecialRunAt(s[i..]).None? {
      assert s[i..][0] == s[i];
    }
    ReSubNowhere(s, SpecialRunAt);
  }

  /** No character of `s` is whitespace other than ' ', and no two whitespace
      characters are next to each other. */
  predicate SingleSpaced(s: string) {
    && (forall i :: 0 <= i < |s| && IsSpace(s[i]) ==> s[i] == ' ')
    && (forall i :: 0 <= i < |s| - 1 ==> !(IsSpace(s[i]) && IsSpace(s[i + 1])))
  }

  /** `--` does not occur in `s`. */
  predicate NoDoubleDash(s: string) {
    forall i :: 0 <= i < |s| - 1 ==> !(s[i] == '-' && s[i + 1] == '-')
  }

  lemma SingleSpacedCons(c: char, r: string)
    requires SingleSpaced(r)
    requires IsSpace(c) ==> c == ' ' && (r == [] || !IsSpace(r[0]))
    ensures SingleSpaced([c] + r)
  {
    var s := [c] + r;
    forall i | 0 <= i < |s| - 1 ensures !(IsSpace(s[i]) && IsSpace(s[i + 1])) {
      if i > 0 {
        assert s[i] == r[i - 1] && s[i + 1] == r[i];
      }
    }
    forall i | 0 <= i < |s| && IsSpace(s[i]) ensures s[i] == ' ' {
      if i > 0 {
        assert s[i] == r[i - 1];
      }
    }
  }

  lemma NoDoubleDashCons(c: char, r: string)
    requires NoDoubleDash(r)
    requires c == '-' ==> r == [] || r[0] != '-'
    ensures NoDoubleDash([c] + r)
  {
    var s := [c] + r;
    forall i | 0 <= i < |s| - 1 ensures !(s[i] == '-' && s[i + 1] == '-') {
      if i > 0 {
        assert s[i] == r[i - 1] && s[i + 1] == r[i];
      }
    }
  }

  function SpaceRunAt(t: string): (m: Option<Match>)
    ensures m.Some? ==> 1 <= m.value.len <= |t| && m.value.repl == " "
    ensures m.Some? ==> IsBlank(Take(t, m.value.len)) && (m.value.len == |t| || !IsSpace(t[m.value.len]))
    ensures m.Some? ==> Letters(m.value.repl) == Letters(Take(t, m.value.len))
    ensures t != [] ==> (m.Some? <==> IsSpace(t[0]))
  {
    var m := RunAt(t, Whitespace, 1, " ");
    if m.Some? then
      WithoutAll(" ", NotLetter);
      WithoutAll(t[..m.value.len], NotLetter);
      m
    else m
  }

  lemma {:induction false} CollapseWhitespaceSpacing(s: string)
    ensures SingleSpaced(ReSub(s, SpaceRunAt))
    ensures s != [] ==> ReSub(s, SpaceRunAt) != [] && ReSub(s, SpaceRunAt)[0] == (if IsSpace(s[0]) then ' ' else s[0])
    decreases |s|
  {
    if s != [] {
      var k := if SpaceRunAt(s).Some? then SpaceRunAt(s).value.len else 1;
      var r := ReSub(s[k..], SpaceRunAt);
      CollapseWhitespaceSpacing(s[k..]);
      if SpaceRunAt(s).Some? {
        assert ReSub(s, SpaceRunAt) == [' '] + r;
        SingleSpacedCons(' ', r);
      } else {
        assert ReSub(s, SpaceRunAt) == [s[0]] + r;
        SingleSpacedCons(s[0], r);
      }
    }
  }

  lemma CollapseWhitespaceKeepsText(s: string)
    ensures NoSpace(ReSub(s, SpaceRunAt)) == NoSpace(s)
  {
    forall t | SpaceRunAt(t).Some? ensures IsBlank(t[..SpaceRunAt(t).value.len]) {
      assert Take(t, SpaceRunAt(t).value.len) == t[..SpaceRunAt(t).value.len];
    }
    BlankSubKeepsText(s, SpaceRunAt);
  }

  /** Every match covers blank text and is replaced by blank text. */
  ghost predicate BlankForBlank(at: Pattern)
    requires Consumes(at)
  {
    forall t :: at(t).Some? ==> IsBlank(t[..at(t).value.len]) && IsBlank(at(t).value.repl)
  }

  /** Replacing blank text by blank text keeps the non-space characters. */
  lemma {:induction false} BlankSubKeepsText(s: string, at: Pattern)
    requires Consumes(at) && BlankForBlank(at)
    ensures NoSpace(ReSub(s, at)) == NoSpace(s)
    decreases |s|
  {
    if s != [] {
      if at(s).Some? {
        var k := at(s).value.len;
        BlankSubKeepsText(s[k..], at);
        ReSubAtMatch(s, at);
        BlankStep(s, k, at(s).value.repl, ReSub(s[k..], at));
      } else {
        BlankSubKeepsText(s[1..], at);
        ReSubNoMatch(s, at);
        assert s[..1] == [s[0]];
        NoSpaceStep(s, 1, [s[0]], ReSub(s[1..], at));
      }
    }
  }

  /** Replacing a blank prefix by blank text keeps the characters. */
  lemma BlankStep(s: string, k: nat, head: string, r: string)
    requires k <= |s| && IsBlank(s[..k]) && IsBlank(head)
    requires NoSpace(r) == NoSpace(s[k..])
    ensures NoSpace(head + r) == NoSpace(s)
  {
    NoSpaceBlank(s[..k]);
    NoSpaceBlank(head);
    NoSpaceStep(s, k, head, r);
  }

  lemma NoSpaceStep(s: string, k: nat, head: string, r: string)
    requires k <= |s|
    requires NoSpace(head) == NoSpace(s[..k]) && NoSpace(r) == NoSpace(s[k..])
    ensures NoSpace(head + r) == NoSpace(s)
  {
    NoSpaceAppend(head, r);
    SplitAt(s, k);
    NoSpaceAppend(s[..k], s[k..]);
  }

  lemma {:induction false} CollapseWhitespaceNoDoubleDash(s: string)
    ensures NoDoubleDash(s) ==> NoDoubleDash(ReSub(s, SpaceRunAt))
    decreases |s|
  {
    if s != [] && NoDoubleDash(s) {
      var k := if SpaceRunAt(s).Some? then SpaceRunAt(s).value.len else 1;
      NoDoubleDashSuffix(s, k);
      CollapseWhitespaceNoDoubleDash(s[k..]);
      CollapseWhitespaceSpacing(s[k..]);
      NoDoubleDashStep(s, k);
    }
  }

  lemma NoDoubleDashSuffix(s: string, k: nat)
    requires k <= |s| && NoDoubleDash(s)
    ensures NoDoubleDash(s[k..])
  {
    forall i | 0 <= i < |s[k..]| - 1 ensures !(s[k..][i] == '-' && s[k..][i + 1] == '-') {
      assert s[k..][i] == s[i + k] && s[k..][i + 1] == s[i + k + 1];
    }
  }

  lemma NoDoubleDashStep(s: string, k: nat)
    requires s != [] && NoDoubleDash(s)
    requires k == (if SpaceRunAt(s).Some? then SpaceRunAt(s).value.len else 1)
    requires NoDoubleDash(ReSub(s[k..], SpaceRunAt))
    requires s[k..] != [] ==> ReSub(s[k..], SpaceRunAt) != [] && ReSub(s[k..], SpaceRunAt)[0] == (if IsSpace(s[k]) then ' ' else s[k])
    ensures NoDoubleDash(ReSub(s, SpaceRunAt))
  {
    var r := ReSub(s[k..], SpaceRunAt);
    if SpaceRunAt(s).Some? {
      assert ReSub(s, SpaceRunAt) == [' '] + r;
      NoDoubleDashCons(' ', r);
    } else {
      assert ReSub(s, SpaceRunAt) == [s[0]] + r;
      assert s[0] == '-' && r != [] ==> s[1] != '-';
      NoDoubleDashCons(s[0], r);
    }
  }

  /** `re.sub(r'\s+', ' ', s)` (lines 73 and 101): every run of whitespace
      becomes one space, and nothing else changes. */
  function CollapseWhitespace(s: string): (r: string)
    ensures SingleSpaced(r)
    ensures NoSpace(r) == NoSpace(s)
    ensures CharsFrom(r, s, " ")
    ensures NoDoubleDash(s) ==> NoDoubleDash(r)
    ensures Letters(r) == Letters(s)
    ensures s != [] ==> r != [] && r[0] == (if IsSpace(s[0]) then ' ' else s[0])
  {
    ReSubKeeps(s, SpaceRunAt, NotLetter);
    CollapseWhitespaceSpacing(s);
    CollapseWhitespaceKeepsText(s);
    CollapseWhitespaceNoDoubleDash(s);
    ReSubCharsFrom(s, SpaceRunAt, " ");
    ReSub(s, SpaceRunAt)
  }

  /** `\s+([.,;:!?])\s+`, replaced by the mark and one space. */
  function LoneMarkAt(t: string): (m: Option<Match>)
    ensures m.Some? ==> 1 <= m.value.len <= |t| && CharsFrom(m.value.repl, t, " ")
    ensures m.Some? ==> Letters(m.value.repl) == Letters(Take(t, m.value.len))
  {
    var k := RunOf(t, Whitespace);
    if 1 <= k < |t| && t[k] in ".,;:!?" then
      var n := RunOf(t[k + 1..], Whitespace);
      if n >= 1 then
        SplitAround(t, k, n);
        MarkBetweenSpacesNoLetters(t[..k], t[k], t[k + 1..][..n]);
        Some(Match(k + 1 + n, [t[k], ' ']))
      else None
    else None
  }

  /** Whitespace, a mark and whitespace hold no letter. */
  lemma MarkBetweenSpacesNoLetters(front: string, c: char, tail: string)
    requires forall i :: 0 <= i < |front| ==> InClass(front[i], Whitespace)
    requires forall i :: 0 <= i < |tail| ==> InClass(tail[i], Whitespace)
    requires c in ".,;:!?"
    ensures Letters(front + ([c] + tail)) == [] && Letters([c, ' ']) == []
  {
    RunNoLetters(front, Whitespace);
    RunNoLetters(tail, Whitespace);
    MarkNoLetter(c);
    WithoutCons(c, tail, NotLetter);
    WithoutAppend(front, [c] + tail, NotLetter);
    WithoutCons(c, " ", NotLetter);
    WithoutCons(' ', [], NotLetter);
  }

  /** Cutting a prefix around its `k`th character. */
  lemma SplitAround(t: string, k: nat, n: nat)
    requires k < |t| && n <= |t| - k - 1
    ensures t[..k + 1 + n] == t[..k] + ([t[k]] + t[k + 1..][..n])
  {
    assert t[k + 1..][..n] == t[k + 1..k + 1 + n];
    assert t[..k + 1] == t[..k] + [t[k]];
    assert t[..k + 1 + n] == t[..k + 1] + t[k + 1..k + 1 + n];
  }

  /** A punctuation mark is not a letter. */
  lemma MarkNoLetter(c: char)
    requires c in ".,;:!?"
    ensures !IsAlpha(c)
  {
  }

  /** A run of whitespace, or of digits and whitespace, holds no letter. */
  lemma RunNoLetters(u: string, cls: CharClass)
    requires cls == Whitespace || cls == DigitOrSpace
    requires forall i :: 0 <= i < |u| ==> InClass(u[i], cls)
    ensures Letters(u) == []
  {
    forall i | 0 <= i < |u| ensures InClass(u[i], NotLetter) {
      assert IsSpace(u[i]) || '0' <= u[i] <= '9';
    }
    WithoutAll(u, NotLetter);
  }

  /** `re.sub(r'\s+([.,;:!?])\s+', r'\1 ', s)` (line 81): a mark standing
      alone between whitespace keeps one space after it; the letters stay. */
  function AttachLoneMarks(s: string): (r: string)
    ensures CharsFrom(r, s, " ")
    ensures Letters(r) == Letters(s)
  {
    ReSubCharsFrom(s, LoneMarkAt, " ");
    ReSubKeeps(s, LoneMarkAt, NotLetter);
    ReSub(s, LoneMarkAt)
  }

  /** `([.,;:!?])([^\s])`, replaced by the mark, a space and the character. */
  function MarkThenCharAt(t: string): (m: Option<Match>)
    ensures m.Some? ==> 1 <= m.value.len <= |t| && CharsFrom(m.value.repl, t, " ")
    ensures m.Some? ==> Letters(m.value.repl) == Letters(Take(t, m.value.len))
  {
    if |t| >= 2 && t[0] in ".,;:!?" && !IsSpace(t[1]) then
      MarkSpacedKeepsLetters(t);
      Some(Match(2, [t[0], ' ', t[1]]))
    else None
  }

  /** A space put between a mark and the next character adds no letter. */
  lemma MarkSpacedKeepsLetters(t: string)
    requires |t| >= 2 && t[0] in ".,;:!?"
    ensures Letters([t[0], ' ', t[1]]) == Letters(t[..2])
  {
    WithoutCons(t[0], [' ', t[1]], NotLetter);
    WithoutCons(' ', [t[1]], NotLetter);
    WithoutCons(t[0], [t[1]], NotLetter);
    assert t[..2] == [t[0]] + [t[1]];
  }

  /** `re.sub(r'([.,;:!?])([^\s])', r'\1 \2', s)` (line 84): a space goes in
      after a mark that is followed by another character; the letters stay. */
  function SpaceAfterMarks(s: string): (r: string)
    ensures CharsFrom(r, s, " ")
    ensures Letters(r) == Letters(s)
  {
    ReSubCharsFrom(s, MarkThenCharAt, " ");
    ReSubKeeps(s, MarkThenCharAt, NotLetter);
    ReSub(s, MarkThenCharAt)
  }

  /** `([^\s])([.,;:!?])`, replaced by the same two characters. */
  function CharThenMarkAt(t: string): (m: Option<Match>)
    ensures m.Some? ==> 1 <= m.value.len <= |t| && m.value.repl == Take(t, m.value.len)
  {
    if |t| >= 2 && !IsSpace(t[0]) && t[1] in ".,;:!?" then Some(Match(2, t[..2])) else None
  }

  /** `re.sub(r'([^\s])([.,;:!?])', r'\1\2', s)` (line 85): the replacement is the
      match itself, so the text is unchanged. */
  function KeepCharBeforeMarks(s: string): (r: string)
    ensures r == s
  {
    ReSubSelf(s, CharThenMarkAt);
    ReSub(s, CharThenMarkAt)
  }

  /** The opening and the closing brackets. */
  const Opening := "([{"
  const Closing := ")]}"

  /** `[\(\[\{]\s*[\)\]\}]`, removed. */
  function EmptyBracketsAt(t: string): (m: Option<Match>)
    ensures m.Some? ==> 2 <= m.value.len <= |t| && m.value.repl == ""
    ensures m.Some? ==> Letters(Take(t, m.value.len)) == []
  {
    if t != [] && t[0] in Opening then
      var k := 1 + RunOf(t[1..], Whitespace);
      if k < |t| && t[k] in Closing then
        Enclosed(t, k);
        EnclosedNoLetters(t[0], t[1..][..k - 1], t[k], Whitespace);
        Some(Match(k + 1, ""))
      else None
    else None
  }

  /** An opening bracket, a run and a closing bracket hold no letter. */
  lemma EnclosedNoLetters(open: char, inner: string, close: char, cls: CharClass)
    requires cls == Whitespace || cls == DigitOrSpace
    requires forall i :: 0 <= i < |inner| ==> InClass(inner[i], cls)
    requires open in Opening && close in Closing
    ensures Letters([open] + (inner + [close])) == []
  {
    RunNoLetters(inner, cls);
    WithoutCons(close, [], NotLetter);
    WithoutAppend(inner, [close], NotLetter);
    WithoutCons(open, inner + [close], NotLetter);
  }

  /** Cutting a prefix into its first character, a middle and its last. */
  lemma Enclosed(t: string, k: nat)
    requires 0 < k < |t|
    ensures t[..k + 1] == [t[0]] + (t[1..][..k - 1] + [t[k]])
  {
    assert t[1..][..k - 1] == t[1..k];
    assert t[..k + 1] == [t[0]] + t[1..k] + [t[k]];
  }

  /** `re.sub(r'[\(\[\{]\s*[\)\]\}]', '', s)` (line 88): empty brackets go,
      the letters stay. */
  function RemoveEmptyBrackets(s: string): (r: string)
    ensures CharsFrom(r, s, "")
    ensures Letters(r) == Letters(s)
  {
    ReSubCharsFrom(s, EmptyBracketsAt, "");
    ReSubKeeps(s, EmptyBracketsAt, NotLetter);
    ReSub(s, EmptyBracketsAt)
  }

  /** `\([0-9\s]+\)`, removed. */
  function NumberInParensAt(t: string): (m: Option<Match>)
    ensures m.Some? ==> 3 <= m.value.len <= |t| && m.value.repl == ""
    ensures m.Some? ==> Letters(Take(t, m.value.len)) == []
  {
    if t != [] && t[0] == '(' then
      var k := RunOf(t[1..], DigitOrSpace);
      if k >= 1 && k + 1 < |t| && t[k + 1] == ')' then
        Enclosed(t, k + 1);
        EnclosedNoLetters(t[0], t[1..][..k], t[k + 1], DigitOrSpace);
        Some(Match(k + 2, ""))
      else None
    else None
  }

  /** `re.sub(r'\([0-9\s]+\)', '', s)` (line 91): bracketed numbers go, the
      letters stay. */
  function RemoveNumbersInParens(s: string): (r: string)
    ensures CharsFrom(r, s, "")
    ensures Letters(r) == Letters(s)
  {
    ReSubCharsFrom(s, NumberInParensAt, "");
    ReSubKeeps(s, NumberInParensAt, NotLetter);
    ReSub(s, NumberInParensAt)
  }

  /** `s.replace(a, b)` for single characters (lines 94-95, where `a` and `b`
      are the same character, so the text is unchanged). */
  function ReplaceChar(s: string, a: char, b: char): (r: string)
    ensures |r| == |s|
    ensures forall i :: 0 <= i < |s| ==> r[i] == (if s[i] == a then b else s[i])
    ensures a == b ==> r == s
  {
    seq(|s|, i requires 0 <= i < |s| => if s[i] == a then b else s[i])
  }

  function DashRunAt(t: string): (m: Option<Match>)
    ensures m.Some? ==> 2 <= m.value.len <= |t| && m.value.repl == " "
    ensures m.Some? ==> m.value.len == |t| || t[m.value.len] != '-'
    ensures m.Some? ==> t[0] == '-' && t[1] == '-'
    ensures m.Some? ==> Without(m.value.repl, SpaceOr("-")) == Without(Take(t, m.value.len), SpaceOr("-"))
    ensures t != [] && t[0] != '-' ==> m.None?
    ensures |t| >= 2 && t[0] == '-' && t[1] == '-' ==> m.Some?
  {
    var m := RunAt(t, Only('-'), 2, " ");
    if m.Some? then
      assert InClass(t[0], Only('-')) && InClass(t[1], Only('-'));
      WithoutAll(" ", SpaceOr("-"));
      WithoutAll(t[..m.value.len], SpaceOr("-"));
      m
    else m
  }

  lemma {:induction false} CollapseDashesFacts(s: string)
    ensures NoDoubleDash(ReSub(s, DashRunAt))
    ensures ReSub(s, DashRunAt) != [] && ReSub(s, DashRunAt)[0] == '-' ==> s != [] && s[0] == '-'
    decreases |s|
  {
    if s != [] {
      match DashRunAt(s)
      case Some(m) =>
        var r := ReSub(s[m.len..], DashRunAt);
        CollapseDashesFacts(s[m.len..]);
        assert ReSub(s, DashRunAt) == [' '] + r;
        NoDoubleDashCons(' ', r);
      case None =>
        var r := ReSub(s[1..], DashRunAt);
        CollapseDashesFacts(s[1..]);
        assert ReSub(s, DashRunAt) == [s[0]] + r;
        NoDoubleDashCons(s[0], r);
    }
  }

  /** `re.sub(r'[-]{2,}', ' ', s)` (line 98): runs of two or more dashes become
      one space, so no "--" is left. */
  function CollapseDashes(s: string): (r: string)
    ensures NoDoubleDash(r)
    ensures CharsFrom(r, s, " ")
    ensures Without(r, SpaceOr("-")) == Without(s, SpaceOr("-"))
    ensures NoDoubleDash(s) ==> r == s
  {
    CollapseDashesFacts(s);
    ReSubCharsFrom(s, DashRunAt, " ");
    ReSubKeeps(s, DashRunAt, SpaceOr("-"));
    if NoDoubleDash(s) then
      forall i | 0 <= i < |s| ensures DashRunAt(s[i..]).None? {
        if i + 1 < |s| {
          assert s[i..][0] == s[i] && s[i..][1] == s[i + 1];
        }
      }
      ReSubNowhere(s, DashRunAt);
      ReSub(s, DashRunAt)
    else ReSub(s, DashRunAt)
  }
}
