/**
  The string helpers of devtools/generate-android-i18n-strings.py, which
  turns the gettext catalogues into Android string resources: escaping a
  translated text for an Android string resource, recognising language
  codes with the two regular expressions, building the values-<qualifier>
  directory suffix, and the filters that choose catalogue entries and
  catalogue files.
*/
module AndroidI18n {

  import opened Wrappers

  // ---------------------------------------------------------------------
  // str.replace and friends
  // ---------------------------------------------------------------------

  /** s.replace(c, r) for a one-character c: every occurrence is replaced. */
  function ReplaceAll(s: string, c: char, r: string): (t: string)
    ensures |r| >= 1 ==> |t| >= |s|
  {
    if |s| == 0 then "" else (if s[0] == c then r else [s[0]]) + ReplaceAll(s[1..], c, r)
  }

  /** How many characters of s are in cs. */
  function Count(s: string, cs: set<char>): nat
  {
    if |s| == 0 then 0 else (if s[0] in cs then 1 else 0) + Count(s[1..], cs)
  }

  /** Replacing distributes over concatenation. */
  lemma {:induction false} ReplaceAllAppend(a: string, b: string, c: char, r: string)
    ensures ReplaceAll(a + b, c, r) == ReplaceAll(a, c, r) + ReplaceAll(b, c, r)
  {
    if |a| == 0 {
      assert a + b == b;
    } else {
      var head := if a[0] == c then r else [a[0]];
      assert (a + b)[0] == a[0];
      assert (a + b)[1..] == a[1..] + b;
      ReplaceAllAppend(a[1..], b, c, r);
      calc {
        ReplaceAll(a + b, c, r);
        head + ReplaceAll(a[1..] + b, c, r);
        head + (ReplaceAll(a[1..], c, r) + ReplaceAll(b, c, r));
        (head + ReplaceAll(a[1..], c, r)) + ReplaceAll(b, c, r);
      }
    }
  }

  /** Replacing a character that does not occur changes nothing. */
  lemma {:induction false} ReplaceAllAbsent(s: string, c: char, r: string)
    requires c !in s
    ensures ReplaceAll(s, c, r) == s
  {
    if |s| > 0 {
      assert c !in s[1..];
      ReplaceAllAbsent(s[1..], c, r);
    }
  }

  lemma ReplaceAllOne(x: char, c: char, r: string)
    ensures ReplaceAll([x], c, r) == if x == c then r else [x]
  {
    assert [x][1..] == [];
  }

  // ---------------------------------------------------------------------
  // escape_special_characters
  // ---------------------------------------------------------------------

  const Backslash: char := '\\'

  /** The characters escape_special_characters rewrites. */
  const SpecialCharacters: set<char> := {'@', '?', '\'', '"', '\n', '\t'}

  /** escape_special_characters: six str.replace calls in a row. */
  function EscapeSpecialCharacters(s: string): (e: string)
    ensures |e| >= |s|
  {
    var escaped := ReplaceAll(s, '@', "\\@");
    var escaped := ReplaceAll(escaped, '?', "\\?");
    var escaped := ReplaceAll(escaped, '\'', "\\'");
    var escaped := ReplaceAll(escaped, '"', "\\\"");
    var escaped := ReplaceAll(escaped, '\n', "\\n");
    ReplaceAll(escaped, '\t', "\\t")
  }

  /** What one character becomes: a backslash before @ ? ' and ", the
      two-character escapes \n and \t for a newline and a tab. */
  function EscapeChar(c: char): (r: string)
    ensures c in SpecialCharacters ==> |r| == 2 && r[0] == Backslash
    ensures c !in SpecialCharacters ==> r == [c]
  {
    if c == '@' then "\\@"
    else if c == '?' then "\\?"
    else if c == '\'' then "\\'"
    else if c == '"' then "\\\""
    else if c == '\n' then "\\n"
    else if c == '\t' then "\\t"
    else [c]
  }

  /** Every character escaped on its own, in one pass. */
  function EscapedPerChar(s: string): string
  {
    if |s| == 0 then "" else EscapeChar(s[0]) + EscapedPerChar(s[1..])
  }

  lemma EscapeAppend(a: string, b: string)
    ensures EscapeSpecialCharacters(a + b) == EscapeSpecialCharacters(a) + EscapeSpecialCharacters(b)
  {
    var a1, b1 := ReplaceAll(a, '@', "\\@"), ReplaceAll(b, '@', "\\@");
    ReplaceAllAppend(a, b, '@', "\\@");
    var a2, b2 := ReplaceAll(a1, '?', "\\?"), ReplaceAll(b1, '?', "\\?");
    ReplaceAllAppend(a1, b1, '?', "\\?");
    var a3, b3 := ReplaceAll(a2, '\'', "\\'"), ReplaceAll(b2, '\'', "\\'");
    ReplaceAllAppend(a2, b2, '\'', "\\'");
    var a4, b4 := ReplaceAll(a3, '"', "\\\""), ReplaceAll(b3, '"', "\\\"");
    ReplaceAllAppend(a3, b3, '"', "\\\"");
    var a5, b5 := ReplaceAll(a4, '\n', "\\n"), ReplaceAll(b4, '\n', "\\n");
    ReplaceAllAppend(a4, b4, '\n', "\\n");
    ReplaceAllAppend(a5, b5, '\t', "\\t");
  }

  /** No replacement introduces a character a later one rewrites, so the
      chain of replacements escapes one character at a time. */
  lemma EscapeOneChar(c: char)
    ensures EscapeSpecialCharacters([c]) == EscapeChar(c)
  {
    if c == '@' {
      EscapeSpecialFirst(c, "\\@");
    } else if c == '?' {
      EscapeSpecialSecond(c, "\\?");
    } else if c == '\'' {
      EscapeSpecialThird(c, "\\'");
    } else if c == '"' {
      EscapeSpecialFourth(c, "\\\"");
    } else if c == '\n' {
      EscapeSpecialFifth(c, "\\n");
    } else if c == '\t' {
      EscapeSpecialSixth(c, "\\t");
    } else {
      ReplaceAllOne(c, '@', "\\@");
      ReplaceAllOne(c, '?', "\\?");
      ReplaceAllOne(c, '\'', "\\'");
      ReplaceAllOne(c, '"', "\\\"");
      ReplaceAllOne(c, '\n', "\\n");
      ReplaceAllOne(c, '\t', "\\t");
    }
  }

  lemma EscapeSpecialFirst(c: char, e: string)
    requires c == '@' && e == "\\@"
    ensures EscapeSpecialCharacters([c]) == e
  {
    ReplaceAllOne(c, '@', e);
    ReplaceAllAbsent(e, '?', "\\?");
    ReplaceAllAbsent(e, '\'', "\\'");
    ReplaceAllAbsent(e, '"', "\\\"");
    ReplaceAllAbsent(e, '\n', "\\n");
    ReplaceAllAbsent(e, '\t', "\\t");
  }

  lemma EscapeSpecialSecond(c: char, e: string)
    requires c == '?' && e == "\\?"
    ensures EscapeSpecialCharacters([c]) == e
  {
    ReplaceAllOne(c, '@', "\\@");
    ReplaceAllOne(c, '?', e);
    ReplaceAllAbsent(e, '\'', "\\'");
    ReplaceAllAbsent(e, '"', "\\\"");
    ReplaceAllAbsent(e, '\n', "\\n");
    ReplaceAllAbsent(e, '\t', "\\t");
  }

  lemma EscapeSpecialThird(c: char, e: string)
    requires c == '\'' && e == "\\'"
    ensures EscapeSpecialCharacters([c]) == e
  {
    ReplaceAllOne(c, '@', "\\@");
    ReplaceAllOne(c, '?', "\\?");
    ReplaceAllOne(c, '\'', e);
    ReplaceAllAbsent(e, '"', "\\\"");
    ReplaceAllAbsent(e, '\n', "\\n");
    ReplaceAllAbsent(e, '\t', "\\t");
  }

  lemma EscapeSpecialFourth(c: char, e: string)
    requires c == '"' && e == "\\\""
    ensures EscapeSpecialCharacters([c]) == e
  {
    ReplaceAllOne(c, '@', "\\@");
    ReplaceAllOne(c, '?', "\\?");
    ReplaceAllOne(c, '\'', "\\'");
    ReplaceAllOne(c, '"', e);
    ReplaceAllAbsent(e, '\n', "\\n");
    ReplaceAllAbsent(e, '\t', "\\t");
  }

  lemma EscapeSpecialFifth(c: char, e: string)
    requires c == '\n' && e == "\\n"
    ensures EscapeSpecialCharacters([c]) == e
  {
    ReplaceAllOne(c, '@', "\\@");
    ReplaceAllOne(c, '?', "\\?");
    ReplaceAllOne(c, '\'', "\\'");
    ReplaceAllOne(c, '"', "\\\"");
    ReplaceAllOne(c, '\n', e);
    ReplaceAllAbsent(e, '\t', "\\t");
  }

  lemma EscapeSpecialSixth(c: char, e: string)
    requires c == '\t' && e == "\\t"
    ensures EscapeSpecialCharacters([c]) == e
  {
    ReplaceAllOne(c, '@', "\\@");
    ReplaceAllOne(c, '?', "\\?");
    ReplaceAllOne(c, '\'', "\\'");
    ReplaceAllOne(c, '"', "\\\"");
    ReplaceAllOne(c, '\n', "\\n");
    ReplaceAllOne(c, '\t', e);
  }

  /** escape_special_characters is the one-pass per-character escape. */
  lemma {:induction false} EscapeIsPerChar(s: string)
    ensures EscapeSpecialCharacters(s) == EscapedPerChar(s)
  {
    if |s| == 0 {
      assert EscapeSpecialCharacters(s) == "";
    } else {
      assert s == [s[0]] + s[1..];
      EscapeAppend([s[0]], s[1..]);
      EscapeOneChar(s[0]);
      EscapeIsPerChar(s[1..]);
    }
  }

  /** A text with none of the six characters is left as it is; otherwise
      the result grows by one character per special character. */
  lemma {:induction false} EscapedPerCharMeaning(s: string)
    ensures |EscapedPerChar(s)| == |s| + Count(s, SpecialCharacters)
    ensures Count(s, SpecialCharacters) == 0 ==> EscapedPerChar(s) == s
  {
    if |s| > 0 {
      EscapedPerCharMeaning(s[1..]);
    }
  }

  /** escape_special_characters is the identity on texts without the six
      characters, and adds one character for each of them. */
  lemma EscapeSpecialCharactersMeaning(s: string)
    ensures |EscapeSpecialCharacters(s)| == |s| + Count(s, SpecialCharacters)
    ensures Count(s, SpecialCharacters) == 0 ==> EscapeSpecialCharacters(s) == s
  {
    EscapeIsPerChar(s);
    EscapedPerCharMeaning(s);
  }

  /** How Android reads a backslash escape in a string resource: \n is a
      newline, \t a tab, and a backslash before any other character stands
      for that character. */
  function UnescapeChar(c: char): char
  {
    if c == 'n' then '\n' else if c == 't' then '\t' else c
  }

  /** The text Android shows for a string resource, as far as backslash
      escapes go. */
  function Unescape(t: string): string
  {
    if |t| == 0 then ""
    else if t[0] == Backslash && |t| >= 2 then [UnescapeChar(t[1])] + Unescape(t[2..])
    else [t[0]] + Unescape(t[1..])
  }

  lemma UnescapePrefix(u: string, rest: string)
    requires |u| == 2 && u[0] == Backslash
    ensures Unescape(u + rest) == [UnescapeChar(u[1])] + Unescape(rest)
  {
    assert (u + rest)[2..] == rest;
  }

  lemma UnescapePlain(c: char, rest: string)
    requires c != Backslash
    ensures Unescape([c] + rest) == [c] + Unescape(rest)
  {
    assert ([c] + rest)[1..] == rest;
  }

  /** Android shows a translated text unchanged as long as it holds no
      backslash of its own. */
  lemma {:induction false} UnescapeEscaped(s: string)
    requires Backslash !in s
    ensures Unescape(EscapeSpecialCharacters(s)) == s
  {
    EscapeIsPerChar(s);
    UnescapePerChar(s);
  }

  lemma {:induction false} UnescapePerChar(s: string)
    requires Backslash !in s
    ensures Unescape(EscapedPerChar(s)) == s
  {
    if |s| > 0 {
      assert Backslash !in s[1..];
      UnescapePerChar(s[1..]);
      var c := s[0];
      if c in SpecialCharacters {
        UnescapePrefix(EscapeChar(c), EscapedPerChar(s[1..]));
      } else {
        UnescapePlain(c, EscapedPerChar(s[1..]));
      }
      assert s == [c] + s[1..];
    }
  }

  /** A backslash in a translation is not escaped: the text backslash-n
      is written as it is and Android shows a newline instead. */
  lemma BackslashNotEscaped()
    ensures EscapeSpecialCharacters([Backslash, 'n']) == [Backslash, 'n']
    ensures Unescape(EscapeSpecialCharacters([Backslash, 'n'])) == "\n"
  {
    var s := [Backslash, 'n'];
    EscapeSpecialCharactersMeaning(s);
    assert Count(s[1..][1..], SpecialCharacters) == 0;
    assert Unescape(s) == [UnescapeChar('n')] + Unescape(s[2..]);
  }

  /** The escape with the backslash itself escaped first, as Android
      requires for a literal backslash. */
  function EscapeForAndroid(s: string): string
  {
    EscapeSpecialCharacters(ReplaceAll(s, Backslash, "\\\\"))
  }

  function EscapeCharForAndroid(c: char): string
  {
    if c == Backslash then "\\\\" else EscapeChar(c)
  }

  lemma {:induction false} EscapeForAndroidPerChar(s: string)
    ensures |s| > 0 ==> EscapeForAndroid(s) == EscapeCharForAndroid(s[0]) + EscapeForAndroid(s[1..])
  {
    if |s| > 0 {
      assert s == [s[0]] + s[1..];
      ReplaceAllAppend([s[0]], s[1..], Backslash, "\\\\");
      ReplaceAllOne(s[0], Backslash, "\\\\");
      var head := ReplaceAll([s[0]], Backslash, "\\\\");
      EscapeAppend(head, ReplaceAll(s[1..], Backslash, "\\\\"));
      if s[0] == Backslash {
        assert head == [Backslash] + [Backslash];
        EscapeAppend([Backslash], [Backslash]);
        EscapeOneChar(Backslash);
      } else {
        EscapeOneChar(s[0]);
      }
    }
  }

  /** With the backslash escaped too, Android shows every text unchanged. */
  lemma {:induction false} UnescapeEscapedForAndroid(s: string)
    ensures Unescape(EscapeForAndroid(s)) == s
  {
    if |s| == 0 {
      assert EscapeForAndroid(s) == EscapeSpecialCharacters("");
    } else {
      EscapeForAndroidPerChar(s);
      UnescapeEscapedForAndroid(s[1..]);
      var c := s[0];
      if c in SpecialCharacters || c == Backslash {
        UnescapePrefix(EscapeCharForAndroid(c), EscapeForAndroid(s[1..]));
      } else {
        UnescapePlain(c, EscapeForAndroid(s[1..]));
      }
      assert s == [c] + s[1..];
    }
  }

  // ---------------------------------------------------------------------
  // Language codes
  // ---------------------------------------------------------------------

  predicate IsAsciiLetter(c: char)
  {
    'a' <= c <= 'z' || 'A' <= c <= 'Z'
  }

  predicate IsAsciiAlnum(c: char)
  {
    IsAsciiLetter(c) || '0' <= c <= '9'
  }

  /** The character class [-_] of both patterns. */
  const Separators: set<char> := {'-', '_'}

  predicate AllLetters(s: string)
  {
    forall i | 0 <= i < |s| :: IsAsciiLetter(s[i])
  }

  predicate AllAlnum(s: string)
  {
    forall i | 0 <= i < |s| :: IsAsciiAlnum(s[i])
  }

  /** The text a pattern's final $ may stop at: the whole string or, as in
      Python's re module, the string without one final newline. */
  predicate EndsWithNewline(s: string)
  {
    |s| > 0 && s[|s| - 1] == '\n'
  }

  /** [a-zA-Z]{2}([-_][a-zA-Z0-9]{2})? matching the whole of s. */
  predicate RegionalCore(s: string)
  {
    (|s| == 2 || |s| == 5) && IsAsciiLetter(s[0]) && IsAsciiLetter(s[1]) &&
    (|s| == 5 ==> s[2] in Separators && IsAsciiAlnum(s[3]) && IsAsciiAlnum(s[4]))
  }

  /** is_regional_language_code: re.match of the anchored pattern. */
  predicate IsRegionalLanguageCode(s: string)
    ensures IsRegionalLanguageCode(s) ==>
      2 <= |s| <= 6 && IsAsciiLetter(s[0]) && IsAsciiLetter(s[1])
  {
    RegionalCore(s) || (EndsWithNewline(s) && RegionalCore(s[..|s| - 1]))
  }

  /** ([-_][a-zA-Z0-9]{1,8})* matching the whole of t. */
  predicate SubtagGroups(t: string)
    decreases |t|
  {
    |t| == 0 || (t[0] in Separators && GroupAt(t[1..]))
  }

  /** [a-zA-Z0-9]{1,8} followed by ([-_][a-zA-Z0-9]{1,8})*, matching the
      whole of u. */
  predicate GroupAt(u: string)
    decreases |u|
  {
    exists k | 1 <= k <= 8 && k <= |u| :: AllAlnum(u[..k]) && SubtagGroups(u[k..])
  }

  /** [a-zA-Z]{1,8}([-_][a-zA-Z0-9]{1,8})* matching the whole of s. */
  predicate Bcp47Core(s: string)
  {
    exists k | 1 <= k <= 8 && k <= |s| :: AllLetters(s[..k]) && SubtagGroups(s[k..])
  }

  /** is_bcp47_language_code: re.match of the anchored pattern. */
  predicate IsBcp47LanguageCode(s: string)
    ensures IsBcp47LanguageCode(s) ==> |s| >= 1 && IsAsciiLetter(s[0])
  {
    Bcp47Core(s) || (EndsWithNewline(s) && Bcp47Core(s[..|s| - 1]))
  }

  lemma RegionalCoreIsBcp47(s: string)
    requires RegionalCore(s)
    ensures Bcp47Core(s)
  {
    var t := s[2..];
    if |s| == 5 {
      assert t[1..][2..] == [];
      assert AllAlnum(t[1..][..2]) && SubtagGroups(t[1..][2..]);
      assert GroupAt(t[1..]);
    } else {
      assert t == [];
    }
    assert AllLetters(s[..2]) && SubtagGroups(s[2..]);
  }

  /** Every code the regional pattern accepts, the BCP 47 one accepts. */
  lemma RegionalIsBcp47(s: string)
    requires IsRegionalLanguageCode(s)
    ensures IsBcp47LanguageCode(s)
  {
    if RegionalCore(s) {
      RegionalCoreIsBcp47(s);
    } else {
      RegionalCoreIsBcp47(s[..|s| - 1]);
    }
  }

  // ---------------------------------------------------------------------
  // re.split and str.join
  // ---------------------------------------------------------------------

  /** The index of the first character of s at or after i that is in seps,
      or |s| when there is none. */
  function FirstSeparator(s: string, seps: set<char>, i: nat): (j: nat)
    requires i <= |s|
    ensures i <= j <= |s|
    decreases |s| - i
  {
    if i < |s| && s[i] !in seps then FirstSeparator(s, seps, i + 1) else i
  }

  lemma {:induction false} FirstSeparatorRun(s: string, seps: set<char>, i: nat)
    requires i <= |s|
    ensures forall k | i <= k < FirstSeparator(s, seps, i) :: s[k] !in seps
    ensures FirstSeparator(s, seps, i) < |s| ==> s[FirstSeparator(s, seps, i)] in seps
    decreases |s| - i
  {
    if i < |s| && s[i] !in seps {
      FirstSeparatorRun(s, seps, i + 1);
    }
  }

  /** re.split with a one-character class: the pieces between separators,
      one more piece than there are separators. */
  function Split(s: string, seps: set<char>): (parts: seq<string>)
    ensures |parts| >= 1
    decreases |s|
  {
    var j := FirstSeparator(s, seps, 0);
    if j == |s| then [s] else [s[..j]] + Split(s[j + 1..], seps)
  }

  /** sep.join(parts). */
  function Join(parts: seq<string>, sep: string): string
  {
    if |parts| == 0 then ""
    else if |parts| == 1 then parts[0]
    else parts[0] + sep + Join(parts[1..], sep)
  }

  predicate NoneOf(s: string, cs: set<char>)
  {
    forall i | 0 <= i < |s| :: s[i] !in cs
  }

  lemma SplitNone(p: string, seps: set<char>)
    requires NoneOf(p, seps)
    ensures Split(p, seps) == [p]
  {
    FirstSeparatorRun(p, seps, 0);
  }

  lemma SplitAt(p: string, c: char, rest: string, seps: set<char>)
    requires NoneOf(p, seps) && c in seps
    ensures Split(p + [c] + rest, seps) == [p] + Split(rest, seps)
  {
    var s := p + [c] + rest;
    FirstSeparatorRun(s, seps, 0);
    var j := FirstSeparator(s, seps, 0);
    assert forall k | 0 <= k < |p| :: s[k] == p[k];
    assert s[|p|] == c;
    assert s[..j] == p;
    assert s[j + 1..] == rest;
  }

  /** Splitting undoes joining when no piece holds the separator. */
  lemma {:induction false} SplitJoin(parts: seq<string>, c: char)
    requires |parts| >= 1
    requires forall i | 0 <= i < |parts| :: NoneOf(parts[i], {c})
    ensures Split(Join(parts, [c]), {c}) == parts
  {
    if |parts| == 1 {
      SplitNone(parts[0], {c});
    } else {
      SplitJoin(parts[1..], c);
      SplitAt(parts[0], c, Join(parts[1..], [c]), {c});
      assert parts == [parts[0]] + parts[1..];
    }
  }

  /** Joining undoes splitting on one character. */
  lemma {:induction false} JoinSplit(s: string, c: char)
    ensures Join(Split(s, {c}), [c]) == s
    decreases |s|
  {
    var j := FirstSeparator(s, {c}, 0);
    FirstSeparatorRun(s, {c}, 0);
    if j < |s| {
      JoinSplit(s[j + 1..], c);
      assert s == s[..j] + [c] + s[j + 1..];
    }
  }

  /** Every piece of a split is made of characters of s that are not
      separators. */
  lemma {:induction false} SplitPieces(s: string, seps: set<char>, x: char)
    requires x !in s
    ensures forall i | 0 <= i < |Split(s, seps)| :: NoneOf(Split(s, seps)[i], {x} + seps)
    decreases |s|
  {
    var j := FirstSeparator(s, seps, 0);
    FirstSeparatorRun(s, seps, 0);
    if j < |s| {
      assert x !in s[j + 1..];
      SplitPieces(s[j + 1..], seps, x);
      var parts := Split(s, seps);
      forall i | 0 <= i < |parts|
        ensures NoneOf(parts[i], {x} + seps)
      {
        if i > 0 {
          assert parts[i] == Split(s[j + 1..], seps)[i - 1];
        }
      }
    } else {
      assert NoneOf(s, {x} + seps);
    }
  }

  // ---------------------------------------------------------------------
  // The pattern as subtags
  // ---------------------------------------------------------------------

  /** The subtags a BCP 47 shaped code splits into: 1-8 letters first, then
      1-8 letters or digits each. */
  predicate ValidSubtags(parts: seq<string>)
  {
    |parts| >= 1 && 1 <= |parts[0]| <= 8 && AllLetters(parts[0]) &&
    AllGroupsValid(parts[1..])
  }

  predicate AllGroupsValid(parts: seq<string>)
  {
    forall i | 0 <= i < |parts| :: 1 <= |parts[i]| <= 8 && AllAlnum(parts[i])
  }

  /** A run of letters and digits that the rest of the pattern continues
      ends exactly at the first separator. */
  lemma PieceEnd(u: string, k: nat)
    requires 1 <= k <= |u| && AllAlnum(u[..k]) && SubtagGroups(u[k..])
    ensures k == FirstSeparator(u, Separators, 0)
  {
    FirstSeparatorRun(u, Separators, 0);
    assert forall i | 0 <= i < k :: IsAsciiAlnum(u[i]) by {
      forall i | 0 <= i < k
        ensures IsAsciiAlnum(u[i])
      {
        assert u[..k][i] == u[i];
      }
    }
    assert k < |u| ==> u[k..][0] == u[k];
  }

  lemma {:induction false} GroupAtSplit(u: string)
    ensures GroupAt(u) <==> AllGroupsValid(Split(u, Separators))
    decreases |u|
  {
    if GroupAt(u) {
      GroupAtSplits(u);
    }
    if AllGroupsValid(Split(u, Separators)) {
      SplitIsGroupAt(u);
    }
  }

  lemma {:induction false} GroupAtSplits(u: string)
    requires GroupAt(u)
    ensures AllGroupsValid(Split(u, Separators))
    decreases |u|, 0
  {
    var j := FirstSeparator(u, Separators, 0);
    GroupAtFirstPiece(u);
    var parts := Split(u, Separators);
    if j < |u| {
      GroupAtSplits(u[j + 1..]);
      var rest := Split(u[j + 1..], Separators);
      assert parts == [u[..j]] + rest;
      forall i | 0 <= i < |parts|
        ensures 1 <= |parts[i]| <= 8 && AllAlnum(parts[i])
      {
        if i > 0 {
          assert parts[i] == rest[i - 1];
        }
      }
    } else {
      assert u[..j] == u;
    }
  }

  /** The first group of a match ends at the first separator, and what
      follows that separator matches again. */
  lemma GroupAtFirstPiece(u: string)
    requires GroupAt(u)
    ensures var j := FirstSeparator(u, Separators, 0);
      1 <= j <= 8 && AllAlnum(u[..j]) && (j < |u| ==> GroupAt(u[j + 1..]))
  {
    var j := FirstSeparator(u, Separators, 0);
    var k :| 1 <= k <= 8 && k <= |u| && AllAlnum(u[..k]) && SubtagGroups(u[k..]);
    PieceEnd(u, k);
    if j < |u| {
      assert u[j..][1..] == u[j + 1..];
    }
  }

  lemma {:induction false} SplitIsGroupAt(u: string)
    requires AllGroupsValid(Split(u, Separators))
    ensures GroupAt(u)
    decreases |u|, 0
  {
    var j := FirstSeparator(u, Separators, 0);
    FirstSeparatorRun(u, Separators, 0);
    var parts := Split(u, Separators);
    if j == |u| {
      assert u[..j] == u;
      assert u[j..] == [];
    } else {
      assert parts[1..] == Split(u[j + 1..], Separators);
      assert AllGroupsValid(Split(u[j + 1..], Separators)) by {
        forall i | 0 <= i < |parts[1..]|
          ensures 1 <= |parts[1..][i]| <= 8 && AllAlnum(parts[1..][i])
        {
          assert parts[1..][i] == parts[i + 1];
        }
      }
      GroupAtSplit(u[j + 1..]);
      assert u[j..][1..] == u[j + 1..];
    }
    assert parts[0] == u[..j];
    assert 1 <= |parts[0]| <= 8 && AllAlnum(parts[0]);
    assert AllAlnum(u[..j]) && SubtagGroups(u[j..]);
  }

  /** The pattern [a-zA-Z]{1,8}([-_][a-zA-Z0-9]{1,8})* accepts exactly the
      codes whose re.split pieces are valid subtags. */
  lemma Bcp47CoreSplit(s: string)
    ensures Bcp47Core(s) <==> ValidSubtags(Split(s, Separators))
  {
    var j := FirstSeparator(s, Separators, 0);
    FirstSeparatorRun(s, Separators, 0);
    var parts := Split(s, Separators);
    if Bcp47Core(s) {
      var k :| 1 <= k <= 8 && k <= |s| && AllLetters(s[..k]) && SubtagGroups(s[k..]);
      assert AllAlnum(s[..k]);
      PieceEnd(s, k);
      if j < |s| {
        GroupAtSplit(s[j + 1..]);
        assert s[j..][1..] == s[j + 1..];
        assert parts[1..] == Split(s[j + 1..], Separators);
      }
    }
    if ValidSubtags(parts) {
      if j == |s| {
        assert s[..j] == s && s[j..] == [];
      } else {
        assert parts[1..] == Split(s[j + 1..], Separators);
        GroupAtSplit(s[j + 1..]);
        assert s[j..][1..] == s[j + 1..];
      }
      assert AllLetters(s[..j]) && SubtagGroups(s[j..]);
    }
  }

  /** is_bcp47_language_code in terms of subtags: the pieces of the code,
      with one final newline set aside, are valid subtags. */
  lemma IsBcp47Subtags(s: string)
    ensures IsBcp47LanguageCode(s) <==>
      ValidSubtags(Split(s, Separators)) ||
      (EndsWithNewline(s) && ValidSubtags(Split(s[..|s| - 1], Separators)))
  {
    Bcp47CoreSplit(s);
    if EndsWithNewline(s) {
      Bcp47CoreSplit(s[..|s| - 1]);
    }
  }

  lemma {:induction false} SubtagGroupsChars(t: string)
    requires SubtagGroups(t)
    ensures forall i | 0 <= i < |t| :: IsAsciiAlnum(t[i]) || t[i] in Separators
    decreases |t|
  {
    if |t| > 0 {
      var u := t[1..];
      var k :| 1 <= k <= 8 && k <= |u| && AllAlnum(u[..k]) && SubtagGroups(u[k..]);
      SubtagGroupsChars(u[k..]);
      forall i | 1 <= i < |t|
        ensures IsAsciiAlnum(t[i]) || t[i] in Separators
      {
        if i <= k {
          assert t[i] == u[..k][i - 1];
        } else {
          assert t[i] == u[k..][i - 1 - k];
        }
      }
    }
  }

  /** A BCP 47 shaped code holds no '+'. */
  lemma Bcp47HasNoPlus(s: string)
    requires IsBcp47LanguageCode(s)
    ensures '+' !in s
  {
    var core := if Bcp47Core(s) then s else s[..|s| - 1];
    var k :| 1 <= k <= 8 && k <= |core| && AllLetters(core[..k]) && SubtagGroups(core[k..]);
    SubtagGroupsChars(core[k..]);
    forall i | 0 <= i < |core|
      ensures core[i] != '+'
    {
      if i < k {
        assert core[i] == core[..k][i];
      } else {
        assert core[i] == core[k..][i - k];
      }
    }
    if core != s {
      assert s == core + [s[|s| - 1]];
    }
  }

  // ---------------------------------------------------------------------
  // get_lang_qualifier
  // ---------------------------------------------------------------------

  /** get_lang_qualifier: the <qualifier> of a res/values-<qualifier>
      directory, or the message of the exception it raises. */
  function GetLangQualifier(code: string): (r: Result<string, string>)
    ensures IsBcp47LanguageCode(code) ==> r.Ok?
    ensures r.Ok? ==> |r.value| >= 2
    ensures r.Err? ==> r.error == "Invalid language code: " + code
  {
    if IsRegionalLanguageCode(code) then
      Ok(ReplaceAll(code, '_', "-r"))
    else if IsBcp47LanguageCode(code) then
      Ok("b+" + Join(Split(code, Separators), "+"))
    else
      Err("Invalid language code: " + code)
  }

  /** A regional code keeps its text, except that an underscore after the
      language becomes -r; a hyphenated one passes through unchanged. */
  lemma QualifierOfRegional(code: string)
    requires IsRegionalLanguageCode(code)
    ensures GetLangQualifier(code) ==
      Ok(if |code| >= 3 && code[2] == '_' then code[..2] + "-r" + code[3..] else code)
  {
    assert code[0] != '_' && code[1] != '_';
    assert forall i | 3 <= i < |code| :: code[i] != '_';
    if |code| >= 3 {
      assert code == code[..2] + [code[2]] + code[3..];
      ReplaceAllAppend(code[..2] + [code[2]], code[3..], '_', "-r");
      ReplaceAllAppend(code[..2], [code[2]], '_', "-r");
      ReplaceAllAbsent(code[..2], '_', "-r");
      assert '_' !in code[3..] by {
        forall i | 0 <= i < |code[3..]|
          ensures code[3..][i] != '_'
        {
          assert code[3..][i] == code[3 + i];
        }
      }
      ReplaceAllAbsent(code[3..], '_', "-r");
      ReplaceAllOne(code[2], '_', "-r");
    } else {
      ReplaceAllAbsent(code, '_', "-r");
    }
  }

  /** Any other accepted code becomes "b+" and its subtags joined by '+',
      and the subtags can be read back from the qualifier. */
  lemma QualifierOfBcp47(code: string)
    requires !IsRegionalLanguageCode(code) && IsBcp47LanguageCode(code)
    ensures GetLangQualifier(code).Ok?
    ensures GetLangQualifier(code).value[..2] == "b+"
    ensures Split(GetLangQualifier(code).value[2..], {'+'}) == Split(code, Separators)
  {
    var parts := Split(code, Separators);
    Bcp47HasNoPlus(code);
    SplitPieces(code, Separators, '+');
    assert forall i | 0 <= i < |parts| :: NoneOf(parts[i], {'+'});
    SplitJoin(parts, '+');
    var q := "b+" + Join(parts, "+");
    assert q[2..] == Join(parts, "+");
  }

  /** get_lang_qualifier raises exactly for codes the BCP 47 pattern
      rejects, since the regional pattern accepts no more than it. */
  lemma QualifierError(code: string)
    ensures GetLangQualifier(code).Err? <==> !IsBcp47LanguageCode(code)
    ensures GetLangQualifier(code).Err? ==>
      GetLangQualifier(code).error == "Invalid language code: " + code
  {
    if IsRegionalLanguageCode(code) {
      RegionalIsBcp47(code);
    }
  }

  // ---------------------------------------------------------------------
  // extract_translations
  // ---------------------------------------------------------------------

  /** A catalogue entry as polib gives it. */
  datatype PoEntry = PoEntry(msgid: string, msgstr: string, fuzzy: bool)

  /** The filter of extract_translations: both texts present, not fuzzy. */
  predicate IsUsable(e: PoEntry)
  {
    e.msgid != "" && e.msgstr != "" && !e.fuzzy
  }

  /** The dictionary after the loop has seen the given entries. */
  function Translations(entries: seq<PoEntry>): (m: map<string, string>)
    ensures forall id | id in m :: id != "" && m[id] != ""
  {
    if |entries| == 0 then map[]
    else
      var before := Translations(entries[..|entries| - 1]);
      var e := entries[|entries| - 1];
      if IsUsable(e) then before[e.msgid := e.msgstr] else before
  }

  /** The entry at i is usable and no later usable entry has its msgid. */
  predicate IsLastUsable(entries: seq<PoEntry>, i: int)
    requires 0 <= i < |entries|
  {
    IsUsable(entries[i]) &&
    forall j | i < j < |entries| :: !(IsUsable(entries[j]) && entries[j].msgid == entries[i].msgid)
  }

  /** extract_translations, over the entries polib read from the file. */
  method ExtractTranslations(entries: seq<PoEntry>) returns (translations: map<string, string>)
    ensures translations == Translations(entries)
  {
    translations := map[];
    var i := 0;
    while i < |entries|
      invariant 0 <= i <= |entries|
      invariant translations == Translations(entries[..i])
    {
      var entry := entries[i];
      assert entries[..i + 1][..i] == entries[..i];
      if entry.msgid != "" && entry.msgstr != "" && !entry.fuzzy {
        translations := translations[entry.msgid := entry.msgstr];
      }
      i := i + 1;
    }
    assert entries[..i] == entries;
  }

  /** A msgid has a translation exactly when some usable entry has it, and
      the translation is never empty. */
  lemma {:induction false} TranslationsDomain(entries: seq<PoEntry>)
    ensures forall id :: id in Translations(entries) <==>
      exists i | 0 <= i < |entries| :: IsUsable(entries[i]) && entries[i].msgid == id
    ensures forall id | id in Translations(entries) :: Translations(entries)[id] != ""
  {
    if |entries| > 0 {
      var n := |entries| - 1;
      var init := entries[..n];
      TranslationsDomain(init);
      forall id
        ensures id in Translations(entries) <==>
          exists i | 0 <= i < |entries| :: IsUsable(entries[i]) && entries[i].msgid == id
      {
        if exists i | 0 <= i < |init| :: IsUsable(init[i]) && init[i].msgid == id {
          var i :| 0 <= i < |init| && IsUsable(init[i]) && init[i].msgid == id;
          assert entries[i] == init[i];
        }
        if exists i | 0 <= i < |entries| :: IsUsable(entries[i]) && entries[i].msgid == id {
          var i :| 0 <= i < |entries| && IsUsable(entries[i]) && entries[i].msgid == id;
          if i < n {
            assert init[i] == entries[i];
          }
        }
      }
    }
  }

  /** A later usable entry overrides an earlier one: the translation of a
      msgid is the msgstr of the last usable entry with it. */
  lemma {:induction false} TranslationsLastWins(entries: seq<PoEntry>)
    ensures forall i | 0 <= i < |entries| && IsLastUsable(entries, i) ::
      entries[i].msgid in Translations(entries) &&
      Translations(entries)[entries[i].msgid] == entries[i].msgstr
  {
    if |entries| > 0 {
      var n := |entries| - 1;
      var init := entries[..n];
      TranslationsLastWins(init);
      forall i | 0 <= i < |entries| && IsLastUsable(entries, i)
        ensures entries[i].msgid in Translations(entries) &&
          Translations(entries)[entries[i].msgid] == entries[i].msgstr
      {
        if i < n {
          assert init[i] == entries[i];
          assert IsLastUsable(init, i) by {
            forall j | i < j < |init|
              ensures !(IsUsable(init[j]) && init[j].msgid == init[i].msgid)
            {
              assert init[j] == entries[j];
            }
          }
        }
      }
    }
  }

  // ---------------------------------------------------------------------
  // get_po_files
  // ---------------------------------------------------------------------

  /** The index of the last c in s, or -1 (str.rfind). */
  function RFind(s: string, c: char): (r: int)
    ensures -1 <= r < |s|
    ensures r >= 0 ==> s[r] == c
    ensures forall k | r < k < |s| :: s[k] != c
  {
    if |s| == 0 then -1
    else if s[|s| - 1] == c then |s| - 1
    else RFind(s[..|s| - 1], c)
  }

  /** os.path.splitext(p)[0] on POSIX: the text before the last dot of the
      last path component, unless that component has only dots before it. */
  function SplitextRoot(p: string): (root: string)
    ensures |root| <= |p| && root == p[..|root|]
    ensures root != p ==> p[|root|] == '.'
  {
    var sepIndex := RFind(p, '/');
    var dotIndex := RFind(p, '.');
    if dotIndex > sepIndex && exists i | sepIndex + 1 <= i < dotIndex :: p[i] != '.' then
      p[..dotIndex]
    else
      p
  }

  predicate EndsWith(s: string, suffix: string)
  {
    |suffix| <= |s| && s[|s| - |suffix|..] == suffix
  }

  /** The catalogue file get_po_files skips. */
  const SkippedPoFile: string := "be-tarask.po"

  /** The filter of get_po_files. */
  predicate IsWantedPoFile(name: string)
    ensures IsWantedPoFile(name) ==> |name| >= 3 && name[..|name| - 3] != "be-tarask"
  {
    EndsWith(name, ".po") && name != SkippedPoFile
  }

  /** The list after the loop has seen the given directory entries. */
  function PoFileNames(names: seq<string>): (out: seq<string>)
    ensures |out| <= |names|
  {
    if |names| == 0 then []
    else
      var before := PoFileNames(names[..|names| - 1]);
      var name := names[|names| - 1];
      if IsWantedPoFile(name) then before + [SplitextRoot(name)] else before
  }

  /** get_po_files, over the names os.listdir returned. */
  method GetPoFiles(names: seq<string>) returns (poFileNames: seq<string>)
    ensures poFileNames == PoFileNames(names)
  {
    poFileNames := [];
    var i := 0;
    while i < |names|
      invariant 0 <= i <= |names|
      invariant poFileNames == PoFileNames(names[..i])
    {
      var filename := names[i];
      assert names[..i + 1][..i] == names[..i];
      if !EndsWith(filename, ".po") {
        i := i + 1;
        continue;
      }
      if filename == SkippedPoFile {
        i := i + 1;
        continue;
      }
      poFileNames := poFileNames + [SplitextRoot(filename)];
      i := i + 1;
    }
    assert names[..i] == names;
  }

  predicate AllDots(s: string)
  {
    forall i | 0 <= i < |s| :: s[i] == '.'
  }

  /** For a directory entry ending in .po, the root is the name without
      ".po", unless everything before ".po" is dots, when it is the whole
      name. */
  lemma PoFileRoot(name: string)
    requires EndsWith(name, ".po") && '/' !in name
    ensures var stem := name[..|name| - 3];
      SplitextRoot(name) == if AllDots(stem) then name else stem
    ensures !AllDots(name[..|name| - 3]) ==> SplitextRoot(name) + ".po" == name
  {
    var d := |name| - 3;
    assert name[d..][0] == name[d];
    assert name[d..][1] == name[d + 1] && name[d..][2] == name[d + 2];
    assert RFind(name, '.') == d;
    var stem := name[..d];
    if AllDots(stem) {
      assert !exists i | 0 <= i < d :: name[i] != '.' by {
        forall i | 0 <= i < d
          ensures name[i] == '.'
        {
          assert stem[i] == name[i];
        }
      }
    } else {
      var i :| 0 <= i < d && stem[i] != '.';
      assert name[i] == stem[i];
      assert name == stem + name[d..];
    }
  }

  /** get_po_files lists the root of every wanted .po name, and nothing
      else; be-tarask is never listed. */
  lemma PoFileNamesMeaning(names: seq<string>)
    requires forall k | 0 <= k < |names| :: '/' !in names[k]
    ensures |PoFileNames(names)| <= |names|
    ensures forall k | 0 <= k < |names| && IsWantedPoFile(names[k]) ::
      SplitextRoot(names[k]) in PoFileNames(names)
    ensures forall r | r in PoFileNames(names) ::
      exists k | 0 <= k < |names| :: IsWantedPoFile(names[k]) && SplitextRoot(names[k]) == r
    ensures "be-tarask" !in PoFileNames(names)
  {
    PoFileNamesComplete(names);
    PoFileNamesSound(names);
    PoFileNamesSkipBeTarask(names);
  }

  /** The last directory entry adds its root when it is wanted. */
  lemma PoFileNamesLast(names: seq<string>)
    requires |names| > 0
    ensures PoFileNames(names) == PoFileNames(names[..|names| - 1]) +
      if IsWantedPoFile(names[|names| - 1]) then [SplitextRoot(names[|names| - 1])] else []
  {
  }

  lemma {:induction false} PoFileNamesComplete(names: seq<string>)
    ensures forall k | 0 <= k < |names| && IsWantedPoFile(names[k]) ::
      SplitextRoot(names[k]) in PoFileNames(names)
  {
    if |names| > 0 {
      var n := |names| - 1;
      var init := names[..n];
      PoFileNamesComplete(init);
      PoFileNamesLast(names);
      forall k | 0 <= k < |names| && IsWantedPoFile(names[k])
        ensures SplitextRoot(names[k]) in PoFileNames(names)
      {
        if k < n {
          assert init[k] == names[k];
          assert SplitextRoot(names[k]) in PoFileNames(init);
        }
      }
    }
  }

  lemma {:induction false} PoFileNamesSound(names: seq<string>)
    ensures forall r | r in PoFileNames(names) ::
      exists k | 0 <= k < |names| :: IsWantedPoFile(names[k]) && SplitextRoot(names[k]) == r
  {
    if |names| > 0 {
      var n := |names| - 1;
      var init := names[..n];
      PoFileNamesSound(init);
      PoFileNamesLast(names);
      forall r | r in PoFileNames(names)
        ensures exists k | 0 <= k < |names| :: IsWantedPoFile(names[k]) && SplitextRoot(names[k]) == r
      {
        if r in PoFileNames(init) {
          var k :| 0 <= k < |init| && IsWantedPoFile(init[k]) && SplitextRoot(init[k]) == r;
          assert names[k] == init[k];
        } else {
          assert IsWantedPoFile(names[n]) && SplitextRoot(names[n]) == r;
        }
      }
    }
  }

  lemma {:induction false} PoFileNamesSkipBeTarask(names: seq<string>)
    requires forall k | 0 <= k < |names| :: '/' !in names[k]
    ensures "be-tarask" !in PoFileNames(names)
  {
    if |names| > 0 {
      var n := |names| - 1;
      var init := names[..n];
      assert forall k | 0 <= k < |init| :: '/' !in init[k] by {
        forall k | 0 <= k < |init|
          ensures '/' !in init[k]
        {
          assert init[k] == names[k];
        }
      }
      PoFileNamesSkipBeTarask(init);
      PoFileNamesLast(names);
      if IsWantedPoFile(names[n]) {
        BeTaraskNotRoot(names[n]);
      }
    }
  }

  lemma BeTaraskNotRoot(name: string)
    requires IsWantedPoFile(name) && '/' !in name
    ensures SplitextRoot(name) != "be-tarask"
  {
    PoFileRoot(name);
    assert name[|name| - 1] == 'o' by {
      assert name[|name| - 3..][2] == name[|name| - 1];
    }
    assert "be-tarask"[8] == 'k';
  }
}
