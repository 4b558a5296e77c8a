/**
 * The sentiment stage: text normalisation (`preprocess_text`), the two scoring
 * strategies (`analyze_sentiment`) and the per-row steps of `process_data`.
 * The classifier and the lexical polarity are outside code; they are passed in
 * as functions.
 */
module SentimentAnalysis {
  import opened Wrappers

  // ---------------------------------------------------------------------------
  // Characters
  // ---------------------------------------------------------------------------

  /** Python's `str.isspace`, the set that `\s` matches (and `\S` excludes) in a str pattern. */
  predicate IsWhitespace(c: char) {
    || ('\t' <= c <= '\r')
    || ('\U{1C}' <= c <= '\U{1F}')
    || c == ' '
    || c == '\U{85}'
    || c == '\U{A0}'
    || c == '\U{1680}'
    || ('\U{2000}' <= c <= '\U{200A}')
    || c == '\U{2028}'
    || c == '\U{2029}'
    || c == '\U{202F}'
    || c == '\U{205F}'
    || c == '\U{3000}'
  }

  /** The class `[A-Za-z0-9 ]` that survives the second pass. */
  predicate IsAllowed(c: char) {
    ('A' <= c <= 'Z') || ('a' <= c <= 'z') || ('0' <= c <= '9') || c == ' '
  }

  /** The alphabet of normalised text: lower-case letters, digits and space. */
  predicate IsNormalized(c: char) {
    ('a' <= c <= 'z') || ('0' <= c <= '9') || c == ' '
  }

  // ---------------------------------------------------------------------------
  // First pass: re.sub(r'http\S+|www\S+', '', text)
  // ---------------------------------------------------------------------------

  /** Length of the longest prefix of `s` that holds no whitespace. */
  function NonSpaceRun(s: string): (n: nat)
    ensures n <= |s|
    ensures forall k :: 0 <= k < n ==> !IsWhitespace(s[k])
    ensures n < |s| ==> IsWhitespace(s[n])
  {
    if s == [] || IsWhitespace(s[0]) then 0 else 1 + NonSpaceRun(s[1..])
  }

  /** Whether `http\S+|www\S+` matches at the start of `s` (case-sensitively). */
  predicate UrlAt(s: string) {
    || (|s| >= 5 && s[0] == 'h' && s[1] == 't' && s[2] == 't' && s[3] == 'p' && !IsWhitespace(s[4]))
    || (|s| >= 4 && s[0] == 'w' && s[1] == 'w' && s[2] == 'w' && !IsWhitespace(s[3]))
  }

  /** A match starts with letters that are not whitespace, so the greedy match is the whole leading run. */
  lemma {:induction false} UrlAtRun(s: string)
    requires UrlAt(s)
    ensures NonSpaceRun(s) >= 4
  {
  }

  /**
   * The first pass of `preprocess_text`: scanning left to right, every match of
   * `http\S+|www\S+` is deleted. A match runs greedily to the next whitespace,
   * so the scan resumes at that whitespace (or at the end of the text).
   */
  function RemoveUrls(s: string): (r: string)
    ensures |r| <= |s|
    decreases |s|
  {
    if s == [] then []
    else if UrlAt(s) then UrlAtRun(s); RemoveUrls(s[NonSpaceRun(s)..])
    else [s[0]] + RemoveUrls(s[1..])
  }

  /** `UrlAt` looks only at the leading run of non-whitespace. */
  lemma {:induction false} UrlAtFromRun(x: string, y: string)
    requires NonSpaceRun(x) <= NonSpaceRun(y)
    requires forall k :: 0 <= k < NonSpaceRun(x) ==> x[k] == y[k]
    requires UrlAt(x)
    ensures UrlAt(y)
  {
    var n := NonSpaceRun(x);
    assert n >= 4;
    if x[0] == 'h' {
      assert n >= 5 by { assert !IsWhitespace(x[4]); }
    }
  }

  /** After a deleted match the text resumes at whitespace, so no non-whitespace run leads it. */
  lemma {:induction false} RemoveUrlsAfterMatch(s: string)
    requires UrlAt(s)
    ensures NonSpaceRun(RemoveUrls(s)) == 0
  {
    UrlAtRun(s);
    var t := s[NonSpaceRun(s)..];
    assert RemoveUrls(s) == RemoveUrls(t);
    if t != [] {
      assert IsWhitespace(t[0]) && !UrlAt(t);
      assert RemoveUrls(t)[0] == t[0];
    }
  }

  /** Deleting URLs never lengthens the leading non-whitespace run, and keeps what is left of it. */
  lemma {:induction false} RemoveUrlsLeadingRun(s: string)
    ensures NonSpaceRun(RemoveUrls(s)) <= NonSpaceRun(s)
    ensures forall k :: 0 <= k < NonSpaceRun(RemoveUrls(s)) ==> RemoveUrls(s)[k] == s[k]
  {
    if s == [] {
    } else if UrlAt(s) {
      RemoveUrlsAfterMatch(s);
    } else if IsWhitespace(s[0]) {
      RemoveUrlsAtWhitespace(s);
    } else {
      RemoveUrlsLeadingRun(s[1..]);
      RemoveUrlsKeptLetter(s);
    }
  }

  /** Whitespace that starts no match is kept, so no non-whitespace run leads the result. */
  lemma {:induction false} RemoveUrlsAtWhitespace(s: string)
    requires s != [] && !UrlAt(s) && IsWhitespace(s[0])
    ensures NonSpaceRun(RemoveUrls(s)) == 0
  {
    assert RemoveUrls(s)[0] == s[0];
  }

  /** A kept non-whitespace character extends the run of what follows it by one. */
  lemma {:induction false} RemoveUrlsKeptLetter(s: string)
    requires s != [] && !UrlAt(s) && !IsWhitespace(s[0])
    requires NonSpaceRun(RemoveUrls(s[1..])) <= NonSpaceRun(s[1..])
    requires forall k :: 0 <= k < NonSpaceRun(RemoveUrls(s[1..])) ==> RemoveUrls(s[1..])[k] == s[1..][k]
    ensures NonSpaceRun(RemoveUrls(s)) <= NonSpaceRun(s)
    ensures forall k :: 0 <= k < NonSpaceRun(RemoveUrls(s)) ==> RemoveUrls(s)[k] == s[k]
  {
    var r := RemoveUrls(s);
    var rest := RemoveUrls(s[1..]);
    assert r == [s[0]] + rest;
    assert r[0] == s[0] && r[1..] == rest;
    assert NonSpaceRun(r) == 1 + NonSpaceRun(rest);
    assert NonSpaceRun(s) == 1 + NonSpaceRun(s[1..]);
    forall k | 0 < k < NonSpaceRun(r) ensures r[k] == s[k] {
      assert r[k] == rest[k - 1] && s[k] == s[1..][k - 1];
    }
  }

  /** After the first pass no match of `http\S+|www\S+` is left anywhere in the text. */
  lemma {:induction false} RemoveUrlsLeavesNoUrl(s: string)
    ensures forall k :: 0 <= k < |RemoveUrls(s)| ==> !UrlAt(RemoveUrls(s)[k..])
    decreases |s|
  {
    var r := RemoveUrls(s);
    if s == [] {
    } else if UrlAt(s) {
      UrlAtRun(s);
      RemoveUrlsLeavesNoUrl(s[NonSpaceRun(s)..]);
    } else {
      var rest := RemoveUrls(s[1..]);
      RemoveUrlsLeavesNoUrl(s[1..]);
      assert r == [s[0]] + rest;
      forall k | 0 <= k < |r|
        ensures !UrlAt(r[k..])
      {
        if k == 0 {
          RemoveUrlsLeadingRun(s);
          if UrlAt(r) {
            UrlAtFromRun(r, s);
          }
        } else {
          assert r[k..] == rest[k - 1..];
        }
      }
    }
  }

  /** Text in which the pattern matches nowhere passes through the first pass unchanged. */
  lemma {:induction false} RemoveUrlsIdentity(s: string)
    requires forall k :: 0 <= k < |s| ==> !UrlAt(s[k..])
    ensures RemoveUrls(s) == s
  {
    if s != [] {
      assert !UrlAt(s[0..]);
      assert s[0..] == s;
      forall k | 0 <= k < |s[1..]|
        ensures !UrlAt(s[1..][k..])
      {
        assert s[1..][k..] == s[k + 1..];
      }
      RemoveUrlsIdentity(s[1..]);
    }
  }

  /** The first pass on its own is idempotent (the whole normalisation is not; see NotIdempotent). */
  lemma {:induction false} RemoveUrlsIdempotent(s: string)
    ensures RemoveUrls(RemoveUrls(s)) == RemoveUrls(s)
  {
    RemoveUrlsLeavesNoUrl(s);
    RemoveUrlsIdentity(RemoveUrls(s));
  }

  // ---------------------------------------------------------------------------
  // Second pass: re.sub(r'[^A-Za-z0-9 ]+', '', text)
  // ---------------------------------------------------------------------------

  /** Deletes every character outside `[A-Za-z0-9 ]`, keeping the others in order. */
  function KeepAllowed(s: string): (r: string)
    ensures |r| <= |s|
    ensures forall k :: 0 <= k < |r| ==> IsAllowed(r[k])
    ensures (forall k :: 0 <= k < |s| ==> IsAllowed(s[k])) ==> r == s
  {
    if s == [] then []
    else (if IsAllowed(s[0]) then [s[0]] else []) + KeepAllowed(s[1..])
  }

  /** Every allowed character occurs in the result exactly as often as in the input. */
  lemma {:induction false} KeepAllowedCounts(s: string, c: char)
    requires IsAllowed(c)
    ensures multiset(KeepAllowed(s))[c] == multiset(s)[c]
  {
    if s != [] {
      assert s == [s[0]] + s[1..];
      KeepAllowedCounts(s[1..], c);
    }
  }

  /**
   * The filter keeps order: filtering a concatenation filters each part, so
   * the kept characters appear in the result in the order of the input.
   */
  lemma {:induction false} KeepAllowedAppend(a: string, b: string)
    ensures KeepAllowed(a + b) == KeepAllowed(a) + KeepAllowed(b)
  {
    if a == [] {
      assert a + b == b;
    } else {
      assert (a + b)[0] == a[0] && (a + b)[1..] == a[1..] + b;
      KeepAllowedAppend(a[1..], b);
      var head := if IsAllowed(a[0]) then [a[0]] else [];
      assert head + (KeepAllowed(a[1..]) + KeepAllowed(b)) == (head + KeepAllowed(a[1..])) + KeepAllowed(b);
    }
  }

  // ---------------------------------------------------------------------------
  // Third pass: text.lower().strip()
  // ---------------------------------------------------------------------------

  /**
   * Lower-cases an ASCII letter: the capital at position `i` of the alphabet
   * becomes the small letter at position `i`; every other character is its
   * own lower case among the allowed ones.
   */
  function LowerChar(c: char): (d: char)
    ensures IsAllowed(c) ==> IsNormalized(d)
    ensures 'A' <= c <= 'Z' ==> d == "abcdefghijklmnopqrstuvwxyz"[c as int - 'A' as int]
    ensures ('a' <= c <= 'z') || ('0' <= c <= '9') || c == ' ' ==> d == c
  {
    if 'A' <= c <= 'Z' then (c as int + 32) as char else c
  }

  /** `str.lower()` on text that the second pass has reduced to ASCII. */
  function Lower(s: string): (r: string)
    ensures |r| == |s|
    ensures forall k :: 0 <= k < |s| ==> r[k] == LowerChar(s[k])
  {
    if s == [] then [] else [LowerChar(s[0])] + Lower(s[1..])
  }

  /** Number of leading whitespace characters. */
  function LeadingWhitespace(s: string): (n: nat)
    ensures n <= |s|
    ensures forall k :: 0 <= k < n ==> IsWhitespace(s[k])
    ensures n < |s| ==> !IsWhitespace(s[n])
  {
    if s != [] && IsWhitespace(s[0]) then 1 + LeadingWhitespace(s[1..]) else 0
  }

  /** Drops trailing whitespace. */
  function TrimEnd(s: string): (r: string)
    ensures |r| <= |s| && r == s[..|r|]
    ensures forall k :: |r| <= k < |s| ==> IsWhitespace(s[k])
    ensures r != [] ==> !IsWhitespace(r[|r| - 1])
  {
    if s != [] && IsWhitespace(s[|s| - 1]) then TrimEnd(s[..|s| - 1]) else s
  }

  /**
   * `str.strip()`: the result is one contiguous slice of the input, everything
   * cut off on either side is whitespace, and the result neither starts nor ends
   * with whitespace. Runs of whitespace inside the slice are kept as they are.
   */
  function Strip(s: string): (r: string)
    ensures var i := LeadingWhitespace(s);
      && i + |r| <= |s|
      && r == s[i..i + |r|]
      && (forall k :: 0 <= k < i ==> IsWhitespace(s[k]))
      && (forall k :: i + |r| <= k < |s| ==> IsWhitespace(s[k]))
    ensures r != [] ==> !IsWhitespace(r[0]) && !IsWhitespace(r[|r| - 1])
  {
    var i := LeadingWhitespace(s);
    var r := TrimEnd(s[i..]);
    assert r == s[i..i + |r|];
    r
  }

  // ---------------------------------------------------------------------------
  // preprocess_text
  // ---------------------------------------------------------------------------

  /**
   * `preprocess_text`: delete URLs, keep `[A-Za-z0-9 ]`, lower-case, strip.
   * Total; the result is over the normalised alphabet, has no space at either
   * end and is never longer than the input.
   */
  function PreprocessText(text: string): (r: string)
    ensures |r| <= |text|
    ensures forall k :: 0 <= k < |r| ==> IsNormalized(r[k])
    ensures r != [] ==> r[0] != ' ' && r[|r| - 1] != ' '
  {
    var cleaned := Lower(KeepAllowed(RemoveUrls(text)));
    CleanedIsNormalized(text);
    var r := Strip(cleaned);
    SliceIsNormalized(cleaned, r, LeadingWhitespace(cleaned));
    r
  }

  /** After the first three steps every character is in the normalised alphabet. */
  lemma {:induction false} CleanedIsNormalized(text: string)
    ensures forall j :: 0 <= j < |Lower(KeepAllowed(RemoveUrls(text)))| ==> IsNormalized(Lower(KeepAllowed(RemoveUrls(text)))[j])
  {
    var filtered := KeepAllowed(RemoveUrls(text));
    forall j | 0 <= j < |filtered| ensures IsNormalized(Lower(filtered)[j]) {
      assert IsAllowed(filtered[j]);
    }
  }

  /** A slice of normalised text is normalised. */
  lemma {:induction false} SliceIsNormalized(s: string, r: string, i: nat)
    requires forall j :: 0 <= j < |s| ==> IsNormalized(s[j])
    requires i + |r| <= |s| && r == s[i..i + |r|]
    ensures forall k :: 0 <= k < |r| ==> IsNormalized(r[k])
  {
    forall k | 0 <= k < |r| ensures IsNormalized(r[k]) {
      assert r[k] == s[i + k];
    }
  }

  /**
   * Normalised text with no URL match and no space at either end is left
   * unchanged, so runs of spaces inside the text are never collapsed.
   */
  lemma {:induction false} NormalizedTextIsFixed(text: string)
    requires forall k :: 0 <= k < |text| ==> IsNormalized(text[k])
    requires forall k :: 0 <= k < |text| ==> !UrlAt(text[k..])
    requires text != [] ==> text[0] != ' ' && text[|text| - 1] != ' '
    ensures PreprocessText(text) == text
  {
    RemoveUrlsIdentity(text);
    assert KeepAllowed(text) == text;
    assert Lower(text) == text;
    StripUnpadded(text);
  }

  /** Text with no whitespace at either end is its own strip. */
  lemma {:induction false} StripUnpadded(s: string)
    requires s != [] ==> !IsWhitespace(s[0]) && !IsWhitespace(s[|s| - 1])
    ensures Strip(s) == s
  {
    if s != [] {
      assert LeadingWhitespace(s) == 0;
      assert s[0..] == s;
      assert TrimEnd(s) == s;
    }
  }

  /** The empty text normalises to the empty text. */
  lemma {:induction false} PreprocessEmpty()
    ensures PreprocessText("") == ""
  {
  }

  /** Interior runs of spaces survive: `a  b` keeps both spaces. */
  lemma {:induction false} InteriorSpacesKept()
    ensures PreprocessText("a  b") == "a  b"
  {
    var s := "a  b";
    forall k | 0 <= k < |s|
      ensures !UrlAt(s[k..])
    {
    }
    NormalizedTextIsFixed(s);
  }

  /** `http` needs at least one more non-whitespace character, so a bare `http` survives the first pass. */
  lemma {:induction false} BareHttpSurvives()
    ensures RemoveUrls("http") == "http"
  {
    var s := "http";
    forall k | 0 <= k < |s|
      ensures !UrlAt(s[k..])
    {
    }
    RemoveUrlsIdentity(s);
  }

  /** `www` followed by whitespace is not a match either. */
  lemma {:induction false} WwwSpaceSurvives()
    ensures RemoveUrls("www x") == "www x"
  {
    var s := "www x";
    forall k | 0 <= k < |s|
      ensures !UrlAt(s[k..])
    {
    }
    RemoveUrlsIdentity(s);
  }

  /** Matching is case-sensitive: an upper-case `HTTP` is not a URL and its letters stay. */
  lemma {:induction false} UpperCaseUrlIsKept()
    ensures RemoveUrls("HTTP://x") == "HTTP://x"
  {
    var s := "HTTP://x";
    forall k | 0 <= k < |s|
      ensures !UrlAt(s[k..])
    {
    }
    RemoveUrlsIdentity(s);
  }

  /**
   * URLs go before the character filter, so text glued in front of a URL
   * survives: a prefix in which no match can start is kept, the URL is
   * deleted up to the next whitespace, and the scan goes on from there.
   */
  lemma {:induction false} GluedPrefixSurvives(p: string, url: string, rest: string)
    requires forall k :: 0 <= k < |p| ==> p[k] != 'h' && p[k] != 'w'
    requires UrlAt(url) && NonSpaceRun(url) == |url|
    requires rest == [] || IsWhitespace(rest[0])
    ensures RemoveUrls(p + url + rest) == p + RemoveUrls(rest)
  {
    PlainPrefixKeptAppend(p, url + rest);
    UrlRunEndsAtWhitespace(url, rest);
    assert p + url + rest == p + (url + rest);
  }

  /** A prefix without `h` or `w` is kept in front of whatever follows it becomes. */
  lemma {:induction false} PlainPrefixKeptAppend(p: string, tail: string)
    requires forall k :: 0 <= k < |p| ==> p[k] != 'h' && p[k] != 'w'
    ensures RemoveUrls(p + tail) == p + RemoveUrls(tail)
  {
    var s := p + tail;
    assert s[..|p|] == p && s[|p|..] == tail;
    PlainPrefixKept(s, |p|);
  }

  /**
   * No match can start at a character other than `h` or `w`, so a prefix
   * without them is kept whole and the scan goes on after it as if it were
   * not there.
   */
  lemma {:induction false} PlainPrefixKept(s: string, n: nat)
    requires n <= |s|
    requires forall k :: 0 <= k < n ==> s[k] != 'h' && s[k] != 'w'
    ensures RemoveUrls(s) == s[..n] + RemoveUrls(s[n..])
  {
    if n == 0 {
      assert s[..0] == [] && s[0..] == s;
    } else {
      PlainPrefixKept(s[1..], n - 1);
      KeptFirstStep(s);
      assert s[1..][n - 1..] == s[n..];
      assert s[1..][..n - 1] == s[1..n];
      assert [s[0]] + (s[1..n] + RemoveUrls(s[n..])) == s[..n] + RemoveUrls(s[n..]) by {
        assert [s[0]] + s[1..n] == s[..n];
      }
    }
  }

  /** A first character that starts no match is kept in front of what the rest becomes. */
  lemma {:induction false} KeptFirstStep(s: string)
    requires s != [] && s[0] != 'h' && s[0] != 'w'
    ensures RemoveUrls(s) == [s[0]] + RemoveUrls(s[1..])
  {
  }

  /** A whole-run URL followed by whitespace is deleted exactly. */
  lemma {:induction false} UrlRunEndsAtWhitespace(url: string, rest: string)
    requires UrlAt(url) && NonSpaceRun(url) == |url|
    requires rest == [] || IsWhitespace(rest[0])
    ensures RemoveUrls(url + rest) == RemoveUrls(rest)
  {
    var s := url + rest;
    assert forall k :: 0 <= k < |url| ==> s[k] == url[k];
    assert UrlAt(s);
    NonSpaceRunAt(s, |url|);
    assert s[|url|..] == rest;
  }

  /** A run that ends at the first whitespace character (or at the end) has exactly that length. */
  lemma {:induction false} NonSpaceRunAt(s: string, n: nat)
    requires n <= |s| && (n < |s| ==> IsWhitespace(s[n]))
    requires forall k :: 0 <= k < n ==> !IsWhitespace(s[k])
    ensures NonSpaceRun(s) == n
  {
    if n > 0 {
      NonSpaceRunAt(s[1..], n - 1);
    }
  }

  /**
   * The normalisation is not idempotent: deleting `.` joins `h` and `ttp...`
   * into a URL that a second normalisation deletes. For example `h.ttpx`
   * normalises to `httpx`, which normalises to the empty text.
   */
  lemma {:induction false} NotIdempotent(t: string)
    requires t != []
    requires forall k :: 0 <= k < |t| ==> 'a' <= t[k] <= 'z' && t[k] != 'h' && t[k] != 'w'
    ensures PreprocessText("h.ttp" + t) == "http" + t
    ensures PreprocessText("http" + t) == ""
  {
    var joined := "http" + t;
    DotBreaksUrl(t);
    DotDropped(t);
    HttpLetters(t);
    LettersUnchanged(joined);
    assert PreprocessText("h.ttp" + t) == Strip(Lower(KeepAllowed(RemoveUrls("h.ttp" + t))));
    LettersNotWhitespace(t);
    UrlSwallowsRest(t);
    assert KeepAllowed([]) == [] && Lower([]) == [] && Strip([]) == [];
    assert PreprocessText(joined) == Strip(Lower(KeepAllowed(RemoveUrls(joined))));
  }

  /** `http` followed by lower-case letters is lower-case letters. */
  lemma {:induction false} HttpLetters(t: string)
    requires forall k :: 0 <= k < |t| ==> 'a' <= t[k] <= 'z'
    ensures forall k :: 0 <= k < |"http" + t| ==> 'a' <= ("http" + t)[k] <= 'z'
  {
    var joined := "http" + t;
    forall k | 0 <= k < |joined| ensures 'a' <= joined[k] <= 'z' {
      if k >= 4 { assert joined[k] == t[k - 4]; }
    }
  }

  /** Letters are not whitespace. */
  lemma {:induction false} LettersNotWhitespace(t: string)
    requires forall k :: 0 <= k < |t| ==> 'a' <= t[k] <= 'z'
    ensures forall k :: 0 <= k < |t| ==> !IsWhitespace(t[k])
  {
  }

  /** No match starts anywhere in `h.ttp` followed by letters other than `h` and `w`. */
  lemma {:induction false} DotBreaksUrl(t: string)
    requires forall k :: 0 <= k < |t| ==> 'a' <= t[k] <= 'z' && t[k] != 'h' && t[k] != 'w'
    ensures RemoveUrls("h.ttp" + t) == "h.ttp" + t
  {
    var s := "h.ttp" + t;
    forall k | 0 <= k < |s| ensures !UrlAt(s[k..]) {
      if k == 0 {
        assert s[k..][1] == '.';
      } else {
        assert s[k..][0] == s[k];
        if k >= 5 { assert s[k] == t[k - 5]; }
      }
    }
    RemoveUrlsIdentity(s);
  }

  /** The character filter deletes the `.` and joins `h` to the rest. */
  lemma {:induction false} DotDropped(t: string)
    requires forall k :: 0 <= k < |t| ==> 'a' <= t[k] <= 'z'
    ensures KeepAllowed("h.ttp" + t) == "http" + t
  {
    var s := "h.ttp" + t;
    var rest := "ttp" + t;
    assert s[1..][1..] == rest;
    forall k | 0 <= k < |rest| ensures IsAllowed(rest[k]) {
      if k >= 3 { assert rest[k] == t[k - 3]; }
    }
    assert KeepAllowed(s[1..]) == KeepAllowed(rest);
    assert ['h'] + rest == "http" + t;
  }

  /** Lower-case letters pass the filter, the lower-casing and the strip unchanged. */
  lemma {:induction false} LettersUnchanged(s: string)
    requires forall k :: 0 <= k < |s| ==> 'a' <= s[k] <= 'z'
    ensures KeepAllowed(s) == s && Lower(s) == s && Strip(s) == s
  {
    assert forall k :: 0 <= k < |s| ==> IsAllowed(s[k]);
    LowerLetters(s);
    LettersNotWhitespace(s);
    StripUnpadded(s);
  }

  /** Lower-case letters are their own lower case. */
  lemma {:induction false} LowerLetters(s: string)
    requires forall k :: 0 <= k < |s| ==> 'a' <= s[k] <= 'z'
    ensures Lower(s) == s
  {
    assert forall k :: 0 <= k < |s| ==> Lower(s)[k] == s[k];
  }

  /** `http` followed by non-whitespace is one match, deleted whole. */
  lemma {:induction false} UrlSwallowsRest(t: string)
    requires t != []
    requires forall k :: 0 <= k < |t| ==> !IsWhitespace(t[k])
    ensures RemoveUrls("http" + t) == ""
  {
    var s := "http" + t;
    forall k | 0 <= k < |s| ensures !IsWhitespace(s[k]) {
      if k >= 4 { assert s[k] == t[k - 4]; }
    }
    NonSpaceRunAt(s, |s|);
    assert s[4] == t[0];
    assert UrlAt(s);
    assert s[|s|..] == [];
  }

  // ---------------------------------------------------------------------------
  // analyze_sentiment
  // ---------------------------------------------------------------------------

  /** What the pretrained classifier returns for one text: a label and its confidence. */
  datatype Classification = Classification(labelText: string, score: real)

  /**
   * A `SentimentAnalyzer` as its constructor leaves it. The strategy is chosen
   * once: `useAdvancedModel` selects the classifier, otherwise the lexical
   * polarity is used.
   */
  datatype SentimentAnalyzer = SentimentAnalyzer(dataFile: string, useAdvancedModel: bool := true)

  /** The two outside scorers: the classifier pipeline and TextBlob's polarity. */
  datatype Scorers = Scorers(classify: string -> Classification, polarity: string -> real)

  /**
   * The label-sign rule of the model strategy: the confidence counts positive
   * exactly when the label is `POSITIVE`, and negative for every other label.
   */
  function SignedScore(c: Classification): (s: real)
    ensures s == c.score || s == -c.score
    ensures 0.0 <= c.score <= 1.0 ==> -1.0 <= s <= 1.0
    ensures c.score > 0.0 ==> (s > 0.0 <==> c.labelText == "POSITIVE")
    ensures c.score > 0.0 ==> (s < 0.0 <==> c.labelText != "POSITIVE")
  {
    if c.labelText == "POSITIVE" then c.score else -c.score
  }

  /** `analyze_sentiment`: normalise, then score with the strategy the analyzer was built with. */
  function AnalyzeSentiment(analyzer: SentimentAnalyzer, scorers: Scorers, text: string): (score: real)
  {
    var clean := PreprocessText(text);
    if analyzer.useAdvancedModel then SignedScore(scorers.classify(clean))
    else scorers.polarity(clean)
  }

  /**
   * Either strategy sees only the normalised text: two texts that normalise
   * alike score alike.
   */
  lemma {:induction false} AnalyzeSeesOnlyNormalizedText(analyzer: SentimentAnalyzer, scorers: Scorers, a: string, b: string)
    requires PreprocessText(a) == PreprocessText(b)
    ensures AnalyzeSentiment(analyzer, scorers, a) == AnalyzeSentiment(analyzer, scorers, b)
  {
  }

  /** With the model strategy and a confidence in [0, 1], the score lies in [-1, 1] and its sign follows the label. */
  lemma {:induction false} ModelScoreInRange(analyzer: SentimentAnalyzer, scorers: Scorers, text: string)
    requires analyzer.useAdvancedModel
    requires 0.0 <= scorers.classify(PreprocessText(text)).score <= 1.0
    ensures -1.0 <= AnalyzeSentiment(analyzer, scorers, text) <= 1.0
    ensures AnalyzeSentiment(analyzer, scorers, text) > 0.0 ==> scorers.classify(PreprocessText(text)).labelText == "POSITIVE"
  {
  }

  // ---------------------------------------------------------------------------
  // process_data (without the CSV read and write)
  // ---------------------------------------------------------------------------

  /** `Positive` iff the score is above zero, `Negative` iff below, `Neutral` otherwise. */
  function Category(score: real): (c: string)
    ensures c == "Positive" <==> score > 0.0
    ensures c == "Negative" <==> score < 0.0
    ensures c == "Neutral" <==> score == 0.0
  {
    if score > 0.0 then "Positive" else if score < 0.0 then "Negative" else "Neutral"
  }

  /** A row of the fetched table as the sentiment stage reads it; `keyword` may be missing. */
  datatype TrendRow = TrendRow(date: int, keyword: Option<string>, interest: int)

  /** A row after `process_data`: the keyword is present and score and category are filled in. */
  datatype ScoredRow = ScoredRow(date: int, keyword: string, interest: int, score: real, category: string)

  /** `dropna(subset=['keyword'])`: keeps the rows with a keyword, in their order. */
  function DropMissingKeyword(rows: seq<TrendRow>): (r: seq<TrendRow>)
    ensures |r| <= |rows|
    ensures forall k :: 0 <= k < |r| ==> r[k].keyword.Some?
  {
    if rows == [] then []
    else (if rows[0].keyword.Some? then [rows[0]] else []) + DropMissingKeyword(rows[1..])
  }

  /** Every row with a keyword is kept as often as it occurs; only rows without one are dropped. */
  lemma {:induction false} DropMissingKeywordCounts(rows: seq<TrendRow>, x: TrendRow)
    requires x.keyword.Some?
    ensures multiset(DropMissingKeyword(rows))[x] == multiset(rows)[x]
  {
    if rows != [] {
      assert rows == [rows[0]] + rows[1..];
      DropMissingKeywordCounts(rows[1..], x);
    }
  }

  /** The filter works row by row, so it distributes over concatenation (order is kept). */
  lemma {:induction false} DropMissingKeywordAppend(a: seq<TrendRow>, b: seq<TrendRow>)
    ensures DropMissingKeyword(a + b) == DropMissingKeyword(a) + DropMissingKeyword(b)
  {
    if a != [] {
      assert (a + b)[0] == a[0] && (a + b)[1..] == a[1..] + b;
      DropMissingKeywordAppend(a[1..], b);
    } else {
      assert a + b == b;
    }
  }

  /** Rows that all have a keyword are kept as they are. */
  lemma {:induction false} DropMissingKeywordKeepsComplete(rows: seq<TrendRow>)
    requires forall k :: 0 <= k < |rows| ==> rows[k].keyword.Some?
    ensures DropMissingKeyword(rows) == rows
  {
    if rows != [] {
      DropMissingKeywordKeepsComplete(rows[1..]);
    }
  }

  /** Scores each kept row by its keyword and categorises the score. */
  function ScoreRows(analyzer: SentimentAnalyzer, scorers: Scorers, rows: seq<TrendRow>): (r: seq<ScoredRow>)
    requires forall k :: 0 <= k < |rows| ==> rows[k].keyword.Some?
    ensures |r| == |rows|
    ensures forall k :: 0 <= k < |r| ==>
      && r[k].date == rows[k].date
      && r[k].keyword == rows[k].keyword.value
      && r[k].interest == rows[k].interest
      && r[k].score == AnalyzeSentiment(analyzer, scorers, r[k].keyword)
      && r[k].category == Category(r[k].score)
  {
    if rows == [] then []
    else
      var row := rows[0];
      var score := AnalyzeSentiment(analyzer, scorers, row.keyword.value);
      [ScoredRow(row.date, row.keyword.value, row.interest, score, Category(score))]
        + ScoreRows(analyzer, scorers, rows[1..])
  }

  /**
   * `process_data` without its file I/O: drop the rows without a keyword, then
   * give every remaining row the score of its keyword and that score's category.
   */
  function ProcessData(analyzer: SentimentAnalyzer, scorers: Scorers, rows: seq<TrendRow>): (r: seq<ScoredRow>)
    ensures |r| == |DropMissingKeyword(rows)|
    ensures forall k :: 0 <= k < |r| ==>
      && r[k].date == DropMissingKeyword(rows)[k].date
      && Some(r[k].keyword) == DropMissingKeyword(rows)[k].keyword
      && r[k].interest == DropMissingKeyword(rows)[k].interest
  {
    ScoreRows(analyzer, scorers, DropMissingKeyword(rows))
  }

  /** Equal keywords get equal score and category: a row's score depends on its keyword only. */
  lemma {:induction false} SameKeywordSameSentiment(analyzer: SentimentAnalyzer, scorers: Scorers, rows: seq<TrendRow>, i: nat, j: nat)
    requires i < |ProcessData(analyzer, scorers, rows)| && j < |ProcessData(analyzer, scorers, rows)|
    requires ProcessData(analyzer, scorers, rows)[i].keyword == ProcessData(analyzer, scorers, rows)[j].keyword
    ensures ProcessData(analyzer, scorers, rows)[i].score == ProcessData(analyzer, scorers, rows)[j].score
    ensures ProcessData(analyzer, scorers, rows)[i].category == ProcessData(analyzer, scorers, rows)[j].category
  {
  }

  /** Every processed row carries the category of its own score, under either strategy. */
  lemma {:induction false} ProcessedCategoryMatchesScore(analyzer: SentimentAnalyzer, scorers: Scorers, rows: seq<TrendRow>, i: nat)
    requires i < |ProcessData(analyzer, scorers, rows)|
    ensures var row := ProcessData(analyzer, scorers, rows)[i];
      && (row.category == "Positive" <==> row.score > 0.0)
      && (row.category == "Negative" <==> row.score < 0.0)
      && (row.category == "Neutral" <==> row.score == 0.0)
      && row.score == AnalyzeSentiment(analyzer, scorers, row.keyword)
  {
  }
}
