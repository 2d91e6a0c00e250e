/** The key normaliser: a region's English display name becomes the key under
    which its images are stored (`sanitizeKey` in utils.js).

    The name is trimmed, only its first white-space separated token is kept,
    that token is lower-cased and every character outside `[a-z0-9]` is removed.
 */
module Keys {

  /** The characters JavaScript's `trim` and the regular-expression class `\s`
      both treat as white space: the ECMAScript WhiteSpace and LineTerminator
      code points. */
  predicate IsSpace(c: char) {
    || c == '\t' || c == '\n' || c == '\U{000B}' || c == '\U{000C}' || c == '\r'
    || c == ' ' || c == '\U{00A0}' || c == '\U{1680}'
    || ('\U{2000}' <= c <= '\U{200A}')
    || c == '\U{2028}' || c == '\U{2029}' || c == '\U{202F}' || c == '\U{205F}'
    || c == '\U{3000}' || c == '\U{FEFF}'
  }

  /** The characters a key is made of. */
  predicate IsKeyChar(c: char) {
    'a' <= c <= 'z' || '0' <= c <= '9'
  }

  predicate NoSpace(s: string) {
    forall k :: 0 <= k < |s| ==> !IsSpace(s[k])
  }

  predicate AllSpace(s: string) {
    forall k :: 0 <= k < |s| ==> IsSpace(s[k])
  }

  /** Leading white space removed. */
  function TrimStart(s: string): (r: string)
    ensures |r| <= |s| && r == s[|s| - |r|..]
    ensures AllSpace(s[..|s| - |r|])
    ensures r == [] || !IsSpace(r[0])
    decreases |s|
  {
    if |s| > 0 && IsSpace(s[0]) then TrimStart(s[1..]) else s
  }

  /** Trailing white space removed. */
  function TrimEnd(s: string): (r: string)
    ensures r <= s
    ensures AllSpace(s[|r|..])
    ensures r == [] || !IsSpace(r[|r| - 1])
    decreases |s|
  {
    if |s| > 0 && IsSpace(s[|s| - 1]) then TrimEnd(s[..|s| - 1]) else s
  }

  function Trim(s: string): string {
    TrimEnd(TrimStart(s))
  }

  /** The characters before the first white space; splitting a trimmed string
      on runs of white space and taking element 0 gives exactly this. */
  function FirstToken(s: string): (t: string)
    ensures t <= s && NoSpace(t)
    ensures t == s || IsSpace(s[|t|])
    decreases |s|
  {
    if |s| == 0 || IsSpace(s[0]) then "" else [s[0]] + FirstToken(s[1..])
  }

  /** What one character contributes to a key once lower-cased and filtered.
      Upper-case ASCII letters become lower case. Two non-ASCII code points
      lower-case into ASCII letters: U+212A KELVIN SIGN becomes `k`, and U+0130
      (capital I with dot above) becomes `i` followed by U+0307, a combining mark
      the filter then removes. Every other character lower-cases to characters
      outside `[a-z0-9]` and contributes nothing. */
  function KeyChars(c: char): string {
    if IsKeyChar(c) then [c]
    else if 'A' <= c <= 'Z' then [(c as int + 32) as char]
    else if c == '\U{212A}' then "k"
    else if c == '\U{0130}' then "i"
    else ""
  }

  /** Lower-case a string and remove everything outside `[a-z0-9]`. */
  function LowerAndFilter(s: string): (r: string)
    ensures forall k :: 0 <= k < |r| ==> IsKeyChar(r[k])
    ensures |r| <= |s|
    decreases |s|
  {
    if |s| == 0 then "" else KeyChars(s[0]) + LowerAndFilter(s[1..])
  }

  /** Lower-casing one ASCII character. */
  function AsciiLower(c: char): char {
    if 'A' <= c <= 'Z' then (c as int + 32) as char else c
  }

  /** Lower-casing, character by character, as `toLowerCase` does for every
      character except U+212A and U+0130. */
  function LowerAll(s: string): (r: string)
    ensures |r| == |s|
  {
    seq(|s|, k requires 0 <= k < |s| => AsciiLower(s[k]))
  }

  /** The characters of `s` in `[a-z0-9]`, in order; everything else removed. */
  function KeepKeyChars(s: string): string
    decreases |s|
  {
    if |s| == 0 then "" else (if IsKeyChar(s[0]) then [s[0]] else "") + KeepKeyChars(s[1..])
  }

  /** Without the two code points whose lower case leaves ASCII, lower-casing
      and filtering in one pass is lower-casing the whole string, then keeping
      the `[a-z0-9]` characters. */
  lemma {:induction false} LowerAndFilterTwoPasses(s: string)
    requires forall k :: 0 <= k < |s| ==> s[k] != '\U{212A}' && s[k] != '\U{0130}'
    ensures LowerAndFilter(s) == KeepKeyChars(LowerAll(s))
    decreases |s|
  {
    if |s| > 0 {
      LowerAndFilterTwoPasses(s[1..]);
      var l := LowerAll(s);
      assert l[0] == AsciiLower(s[0]);
      assert l[1..] == LowerAll(s[1..]);
      assert KeyChars(s[0]) == if IsKeyChar(l[0]) then [l[0]] else "";
    }
  }

  /** Lower-casing and filtering works character by character, so it
      distributes over concatenation. */
  lemma {:induction false} LowerAndFilterAppend(a: string, b: string)
    ensures LowerAndFilter(a + b) == LowerAndFilter(a) + LowerAndFilter(b)
    decreases |a|
  {
    if |a| > 0 {
      assert (a + b)[1..] == a[1..] + b;
      assert (a + b)[0] == a[0];
      LowerAndFilterAppend(a[1..], b);
    } else {
      assert a + b == b;
    }
  }

  function SanitizeKey(nameEn: string): (key: string)
    ensures forall k :: 0 <= k < |key| ==> IsKeyChar(key[k])
  {
    if |nameEn| == 0 then "" else LowerAndFilter(FirstToken(Trim(nameEn)))
  }

  /** A string already made of key characters is left as it is. */
  lemma {:induction false} LowerAndFilterKeeps(s: string)
    requires forall k :: 0 <= k < |s| ==> IsKeyChar(s[k])
    ensures LowerAndFilter(s) == s
    decreases |s|
  {
    if |s| > 0 {
      LowerAndFilterKeeps(s[1..]);
    }
  }

  /** Empty and white-space-only names give the empty key. */
  lemma SanitizeBlank(nameEn: string)
    requires AllSpace(nameEn)
    ensures SanitizeKey(nameEn) == ""
  {
    TrimStartBlank(nameEn);
  }

  lemma {:induction false} TrimStartBlank(s: string)
    requires AllSpace(s)
    ensures TrimStart(s) == ""
    decreases |s|
  {
    if |s| > 0 {
      TrimStartBlank(s[1..]);
    }
  }

  /** Normalising a key again changes nothing. */
  lemma SanitizeIdempotent(nameEn: string)
    ensures SanitizeKey(SanitizeKey(nameEn)) == SanitizeKey(nameEn)
  {
    var key := SanitizeKey(nameEn);
    if |key| > 0 {
      assert NoSpace(key) by {
        forall k | 0 <= k < |key| ensures !IsSpace(key[k]) {
          assert IsKeyChar(key[k]);
        }
      }
      assert TrimStart(key) == key;
      assert TrimEnd(key) == key;
      assert FirstToken(key) == key;
      LowerAndFilterKeeps(key);
    }
  }

  /** Only the first token counts: leading white space is skipped, and whatever
      follows the first white space after the word is ignored. */
  lemma SanitizeFirstToken(lead: string, word: string, rest: string)
    requires AllSpace(lead)
    requires |word| > 0 && NoSpace(word)
    requires rest == [] || IsSpace(rest[0])
    ensures SanitizeKey(lead + word + rest) == LowerAndFilter(word)
  {
    var tail := TrimAroundWord(lead, word, rest);
    FirstTokenOfWord(word, tail);
    assert |lead + word + rest| > 0;
  }

  /** Trimming keeps the word and at most a part of `rest` that starts with
      white space. */
  lemma TrimAroundWord(lead: string, word: string, rest: string) returns (tail: string)
    requires AllSpace(lead)
    requires |word| > 0 && NoSpace(word)
    requires rest == [] || IsSpace(rest[0])
    ensures Trim(lead + word + rest) == word + tail
    ensures tail == [] || IsSpace(tail[0])
  {
    var t := word + rest;
    assert lead + word + rest == lead + t;
    assert t[0] == word[0];
    TrimStartSkips(lead, t);
    assert !IsSpace(word[|word| - 1]);
    var m := TrimEndAfterWord(word, rest);
    tail := rest[..m];
  }

  /** Trimming the end never cuts into a word that ends in a non-space. */
  lemma TrimEndAfterWord(word: string, rest: string) returns (m: nat)
    requires |word| > 0 && !IsSpace(word[|word| - 1])
    ensures m <= |rest| && TrimEnd(word + rest) == word + rest[..m]
  {
    var t := word + rest;
    var e := TrimEnd(t);
    assert forall q :: |e| <= q < |t| ==> IsSpace(t[q]) by {
      forall q | |e| <= q < |t| ensures IsSpace(t[q]) {
        assert t[q] == t[|e|..][q - |e|];
      }
    }
    assert !IsSpace(t[|word| - 1]);
    m := |e| - |word|;
    assert e == t[..|e|];
    assert t[..|e|] == word + rest[..m];
  }

  lemma {:induction false} TrimStartSkips(lead: string, t: string)
    requires AllSpace(lead)
    requires t == [] || !IsSpace(t[0])
    ensures TrimStart(lead + t) == t
    decreases |lead|
  {
    if |lead| > 0 {
      assert (lead + t)[1..] == lead[1..] + t;
      TrimStartSkips(lead[1..], t);
    } else {
      assert lead + t == t;
    }
  }

  lemma {:induction false} FirstTokenOfWord(word: string, t: string)
    requires NoSpace(word)
    requires t == [] || IsSpace(t[0])
    ensures FirstToken(word + t) == word
    decreases |word|
  {
    if |word| > 0 {
      assert (word + t)[1..] == word[1..] + t;
      FirstTokenOfWord(word[1..], t);
    } else {
      assert word + t == t;
    }
  }

  /** The documented example. */
  lemma SanitizeTokyo()
    ensures SanitizeKey("Tokyo Metropolis") == "tokyo"
  {
    var word, rest := "Tokyo", " Metropolis";
    assert "" + word + rest == "Tokyo Metropolis";
    TokyoIsWord();
    SanitizeFirstToken("", word, rest);
    LowerTokyo();
  }

  lemma TokyoIsWord()
    ensures NoSpace("Tokyo")
  {
    var word := "Tokyo";
    forall k | 0 <= k < |word| ensures !IsSpace(word[k]) {
      assert 'A' <= word[k] <= 'z';
    }
  }

  lemma LowerTokyo()
    ensures LowerAndFilter("Tokyo") == "tokyo"
  {
    assert KeyChars('T') == "t";
    LowerAndFilterKeeps("okyo");
    assert "Tokyo"[1..] == "okyo";
  }
}
