/** The team-name sanitizer `sanitize_name` of unduhlogo.py: keep letters,
    digits and whitespace, strip both ends, turn every space into a hyphen,
    lower-case the result. */
module Sanitizer {

  /** Python's character predicates `str.isalpha`, `str.isdigit`,
      `str.isspace` and per-character lower-casing, as the sanitizer uses
      them. `lower` yields a string because Python's `lower()` may expand a
      character into several. */
  datatype CharTable = CharTable(
    isAlpha: char -> bool,
    isDigit: char -> bool,
    isSpace: char -> bool,
    lower: char -> string)
  {
    /** The facts about Unicode's tables that the properties below rely on. */
    ghost predicate Valid() {
      && isSpace(' ')
      && !isAlpha('-') && !isDigit('-') && !isSpace('-')
      && !isAlpha('/') && !isDigit('/') && !isSpace('/')
      && lower('-') == "-"
      && forall c :: CharFacts(c)
    }

    /** What the tables say about one character: whitespace is never a
        letter or digit; lower-casing yields at least one character, never
        introduces a space, a hyphen or a slash, and keeps non-whitespace
        non-whitespace. */
    ghost predicate CharFacts(c: char) {
      && (isSpace(c) ==> !isAlpha(c) && !isDigit(c))
      && |lower(c)| > 0
      && (c != ' ' ==> ' ' !in lower(c))
      && (c != '-' ==> '-' !in lower(c))
      && (c != '/' ==> '/' !in lower(c))
      && (!isSpace(c) ==> forall i :: 0 <= i < |lower(c)| ==> !isSpace(lower(c)[i]))
    }
  }

  /** Python's classification on U+0000..U+00FF (Latin-1). A character above
      U+00FF is treated as neither letter, digit nor whitespace. */
  predicate Latin1IsAlpha(c: char) {
    || 'A' <= c <= 'Z' || 'a' <= c <= 'z'
    || c == '\U{AA}' || c == '\U{B5}' || c == '\U{BA}'
    || '\U{C0}' <= c <= '\U{D6}' || '\U{D8}' <= c <= '\U{F6}' || '\U{F8}' <= c <= '\U{FF}'
  }

  predicate Latin1IsDigit(c: char) {
    '0' <= c <= '9' || c == '\U{B2}' || c == '\U{B3}' || c == '\U{B9}'
  }

  predicate Latin1IsSpace(c: char) {
    '\U{09}' <= c <= '\U{0D}' || '\U{1C}' <= c <= '\U{1F}' || c == ' ' || c == '\U{85}' || c == '\U{A0}'
  }

  function Latin1Lower(c: char): string {
    if 'A' <= c <= 'Z' || ('\U{C0}' <= c <= '\U{DE}' && c != '\U{D7}') then
      [(c as int + 32) as char]
    else
      [c]
  }

  const Latin1 := CharTable(Latin1IsAlpha, Latin1IsDigit, Latin1IsSpace, Latin1Lower)

  lemma Latin1Valid()
    ensures Latin1.Valid()
  {
  }

  /** Characters kept by the first step: `c.isalpha() or c.isdigit() or c.isspace()`. */
  predicate Kept(t: CharTable, c: char) {
    t.isAlpha(c) || t.isDigit(c) || t.isSpace(c)
  }

  /** The list comprehension of step 1: the kept characters, in order. */
  function Clean(t: CharTable, s: string): (r: string)
    ensures |r| <= |s|
    ensures forall i :: 0 <= i < |r| ==> Kept(t, r[i])
  {
    if s == [] then []
    else if Kept(t, s[0]) then [s[0]] + Clean(t, s[1..])
    else Clean(t, s[1..])
  }

  /** A character is in the cleaned name exactly when it is in the name and kept. */
  lemma {:induction false} CleanMembers(t: CharTable, s: string)
    ensures forall c :: c in Clean(t, s) <==> c in s && Kept(t, c)
  {
    if s != [] {
      CleanMembers(t, s[1..]);
      assert s == [s[0]] + s[1..];
    }
  }

  /** The first index at or after `i` that does not hold whitespace, or `|s|`. */
  function SkipSpaces(t: CharTable, s: string, i: nat): (a: nat)
    requires i <= |s|
    ensures i <= a <= |s|
    ensures forall k :: i <= k < a ==> t.isSpace(s[k])
    ensures a < |s| ==> !t.isSpace(s[a])
    decreases |s| - i
  {
    if i < |s| && t.isSpace(s[i]) then SkipSpaces(t, s, i + 1) else i
  }

  /** The end `b` of `s[lo..e]` once its trailing whitespace is dropped. */
  function SkipSpacesBack(t: CharTable, s: string, lo: nat, e: nat): (b: nat)
    requires lo <= e <= |s|
    ensures lo <= b <= e
    ensures forall k :: b <= k < e ==> t.isSpace(s[k])
    ensures lo < b ==> !t.isSpace(s[b - 1])
    decreases e
  {
    if lo < e && t.isSpace(s[e - 1]) then SkipSpacesBack(t, s, lo, e - 1) else e
  }

  /** Where `strip()` starts: past the leading whitespace (`lstrip()`). */
  function StripStart(t: CharTable, s: string): nat {
    SkipSpaces(t, s, 0)
  }

  /** Where `strip()` ends: before the trailing whitespace (`rstrip()`). */
  function StripEnd(t: CharTable, s: string): nat {
    SkipSpacesBack(t, s, StripStart(t, s), |s|)
  }

  /** `strip()`: the part of `s` between its leading and trailing whitespace. */
  function Strip(t: CharTable, s: string): string {
    s[StripStart(t, s)..StripEnd(t, s)]
  }

  /** `r` is the slice of `s` starting at `a`, with only whitespace outside it. */
  ghost predicate SliceBetweenSpaces(t: CharTable, s: string, r: string, a: int) {
    && 0 <= a <= |s| - |r|
    && (forall i :: 0 <= i < |r| ==> r[i] == s[a + i])
    && (forall i :: 0 <= i < a ==> t.isSpace(s[i]))
    && (forall i :: a + |r| <= i < |s| ==> t.isSpace(s[i]))
  }

  /** `strip()` cuts a contiguous slice out of `s`: only whitespace lies
      outside it, and it neither starts nor ends with whitespace. */
  lemma StripIsTrim(t: CharTable, s: string)
    ensures SliceBetweenSpaces(t, s, Strip(t, s), StripStart(t, s))
    ensures var r := Strip(t, s); r != [] ==> !t.isSpace(r[0]) && !t.isSpace(r[|r| - 1])
  {
  }

  /** A string without whitespace at either end is its own `strip()`. */
  lemma StripTrimmed(t: CharTable, s: string)
    requires s != [] ==> !t.isSpace(s[0]) && !t.isSpace(s[|s| - 1])
    ensures Strip(t, s) == s
  {
    assert s[0..|s|] == s;
  }

  /** `replace(' ', '-')`: every space, and only a space, becomes a hyphen. */
  function ReplaceSpaces(s: string): (r: string)
    ensures |r| == |s|
    ensures forall i :: 0 <= i < |s| ==> r[i] == (if s[i] == ' ' then '-' else s[i])
  {
    if s == [] then [] else [if s[0] == ' ' then '-' else s[0]] + ReplaceSpaces(s[1..])
  }

  /** `x` belongs to the lower-case expansion of some character of `s`. */
  ghost predicate LoweredFrom(t: CharTable, s: string, x: char) {
    exists c :: c in s && x in t.lower(c)
  }

  /** `lower()`: each character replaced by its lower-case expansion. */
  function Lower(t: CharTable, s: string): (r: string)
    ensures forall x :: x in r ==> LoweredFrom(t, s, x)
  {
    if s == [] then [] else t.lower(s[0]) + Lower(t, s[1..])
  }

  /** `sanitize_name(name)`. */
  function SanitizeName(t: CharTable, name: string): (slug: string)
  {
    Lower(t, ReplaceSpaces(Strip(t, Clean(t, name))))
  }

  /** Number of occurrences of `x` in `s`. */
  function Count(s: string, x: char): (n: nat)
    ensures n <= |s|
    ensures n == 0 <==> x !in s
  {
    if s == [] then 0 else (if s[0] == x then 1 else 0) + Count(s[1..], x)
  }

  lemma {:induction false} CountAppend(a: string, b: string, x: char)
    ensures Count(a + b, x) == Count(a, x) + Count(b, x)
  {
    if a == [] {
      assert a + b == b;
    } else {
      assert (a + b)[1..] == a[1..] + b;
      CountAppend(a[1..], b, x);
    }
  }

  lemma {:induction false} LowerAppend(t: CharTable, a: string, b: string)
    ensures Lower(t, a + b) == Lower(t, a) + Lower(t, b)
  {
    if a == [] {
      assert a + b == b;
    } else {
      assert (a + b)[1..] == a[1..] + b;
      LowerAppend(t, a[1..], b);
    }
  }

  /** A non-empty input lower-cases to a non-empty output that begins with
      the expansion of its first character and ends with that of its last. */
  lemma LowerEnds(t: CharTable, s: string)
    requires t.Valid() && s != []
    ensures |Lower(t, s)| >= |t.lower(s[0])| > 0 && |t.lower(s[|s| - 1])| > 0
    ensures Lower(t, s)[0] == t.lower(s[0])[0]
    ensures Lower(t, s)[|Lower(t, s)| - 1] == t.lower(s[|s| - 1])[|t.lower(s[|s| - 1])| - 1]
  {
    var n := |s|;
    assert t.CharFacts(s[0]) && t.CharFacts(s[n - 1]);
    assert s == s[..n - 1] + [s[n - 1]];
    LowerAppend(t, s[..n - 1], [s[n - 1]]);
    assert Lower(t, [s[n - 1]]) == t.lower(s[n - 1]);
  }

  /** Hyphens in the lower-cased text are exactly the hyphens before it. */
  lemma {:induction false} LowerHyphenCount(t: CharTable, s: string)
    requires t.Valid()
    ensures Count(Lower(t, s), '-') == Count(s, '-')
  {
    if s != [] {
      LowerHyphenCount(t, s[1..]);
      CountAppend(t.lower(s[0]), Lower(t, s[1..]), '-');
      assert t.CharFacts(s[0]);
    }
  }

  /** After `replace`, the hyphens are the former spaces plus the former hyphens. */
  lemma {:induction false} ReplaceSpacesHyphenCount(s: string)
    ensures Count(ReplaceSpaces(s), '-') == Count(s, ' ') + Count(s, '-')
  {
    if s != [] {
      ReplaceSpacesHyphenCount(s[1..]);
      assert ReplaceSpaces(s)[1..] == ReplaceSpaces(s[1..]);
    }
  }

  /** `x` is the lower-casing, or part of it, of a letter, digit or
      whitespace character of `name` other than a space. */
  ghost predicate FromKeptChar(t: CharTable, name: string, x: char) {
    exists c :: c in name && Kept(t, c) && c != ' ' && x in t.lower(c)
  }

  /** A character after `replace(' ', '-')` is a hyphen or a character of
      the input other than a space. */
  lemma ReplaceSpacesMember(s: string, d: char)
    requires d in ReplaceSpaces(s)
    ensures d == '-' || (d in s && d != ' ')
  {
    var i :| 0 <= i < |s| && ReplaceSpaces(s)[i] == d;
    if s[i] != ' ' {
      assert d == s[i];
    }
  }

  /** `strip()` keeps only characters of its input. */
  lemma StripMember(t: CharTable, s: string, d: char)
    requires d in Strip(t, s)
    ensures d in s
  {
    var i :| 0 <= i < |Strip(t, s)| && Strip(t, s)[i] == d;
    assert d == s[StripStart(t, s) + i];
  }

  /** A character of the name after cleaning, stripping and replacing
      spaces is a hyphen or a kept character of the name other than a space. */
  lemma ReplacedMember(t: CharTable, name: string, d: char)
    requires d in ReplaceSpaces(Strip(t, Clean(t, name)))
    ensures d == '-' || (d in name && Kept(t, d) && d != ' ')
  {
    ReplaceSpacesMember(Strip(t, Clean(t, name)), d);
    if d != '-' {
      StripMember(t, Clean(t, name), d);
      CleanMembers(t, name);
    }
  }

  /** One character of the slug: see `SanitizeAlphabet`. */
  lemma SlugCharSource(t: CharTable, name: string, x: char)
    requires t.Valid()
    requires x in SanitizeName(t, name)
    ensures x != ' ' && x != '/' && (x == '-' || FromKeptChar(t, name, x))
  {
    var s3 := ReplaceSpaces(Strip(t, Clean(t, name)));
    assert LoweredFrom(t, s3, x);
    var d :| d in s3 && x in t.lower(d);
    ReplacedMember(t, name, d);
    assert t.CharFacts(d);
  }

  /** Every character of the slug is a hyphen or comes from lower-casing a
      kept character of the name other than a space; no space and no slash
      survives, and no punctuation (an input hyphen included) either. */
  lemma SanitizeAlphabet(t: CharTable, name: string)
    requires t.Valid()
    ensures forall x :: x in SanitizeName(t, name) ==>
      x != ' ' && x != '/' && (x == '-' || FromKeptChar(t, name, x))
  {
    forall x | x in SanitizeName(t, name)
      ensures x != ' ' && x != '/' && (x == '-' || FromKeptChar(t, name, x))
    {
      SlugCharSource(t, name, x);
    }
  }

  /** No slash survives into the slug, so the slug can name a file. */
  lemma SlugHasNoSlash(t: CharTable, name: string)
    requires t.Valid()
    ensures var slug := SanitizeName(t, name);
      forall i :: 0 <= i < |slug| ==> slug[i] != '/'
  {
    var slug := SanitizeName(t, name);
    forall i | 0 <= i < |slug|
      ensures slug[i] != '/'
    {
      SlugCharSource(t, name, slug[i]);
    }
  }

  /** The slug never begins or ends with a hyphen or with whitespace. */
  lemma SanitizeEnds(t: CharTable, name: string)
    requires t.Valid()
    ensures var slug := SanitizeName(t, name);
      slug != [] ==>
        && slug[0] != '-' && !t.isSpace(slug[0])
        && slug[|slug| - 1] != '-' && !t.isSpace(slug[|slug| - 1])
  {
    var s1 := Clean(t, name);
    var a := StripStart(t, s1);
    var s2 := Strip(t, s1);
    var s3 := ReplaceSpaces(s2);
    if s3 != [] {
      LowerEnds(t, s3);
      var first, last := s2[0], s2[|s2| - 1];
      assert first == s1[a] && last == s1[a + |s2| - 1];
      assert s3[0] == first && s3[|s3| - 1] == last;
      assert t.CharFacts(first) && t.CharFacts(last);
      assert t.lower(first)[0] in t.lower(first);
      assert t.lower(last)[|t.lower(last)| - 1] in t.lower(last);
    }
  }

  /** One hyphen per space of the cleaned, stripped name: runs of spaces
      give runs of hyphens, nothing is collapsed. */
  lemma SanitizeHyphenCount(t: CharTable, name: string)
    requires t.Valid()
    ensures Count(SanitizeName(t, name), '-') == Count(Strip(t, Clean(t, name)), ' ')
  {
    var s2 := Strip(t, Clean(t, name));
    LowerHyphenCount(t, ReplaceSpaces(s2));
    ReplaceSpacesHyphenCount(s2);
    assert '-' !in Clean(t, name);
    assert '-' !in s2;
  }

  /** A letter or digit anywhere in the name leaves a non-empty slug. */
  lemma SlugNonEmpty(t: CharTable, name: string, c: char)
    requires t.Valid()
    requires c in name && (t.isAlpha(c) || t.isDigit(c))
    ensures SanitizeName(t, name) != []
  {
    var s1 := Clean(t, name);
    var a := StripStart(t, s1);
    var s2 := Strip(t, s1);
    CleanMembers(t, name);
    assert t.CharFacts(c);
    assert c in s1 && !t.isSpace(c);
    var k :| 0 <= k < |s1| && s1[k] == c;
    assert a <= k < StripEnd(t, s1);
    assert s2 != [];
    LowerEnds(t, ReplaceSpaces(s2));
  }

  /** A name without letters and digits cleans to whitespace only, which
      `strip()` removes entirely. */
  lemma SlugEmpty(t: CharTable, name: string)
    requires forall c :: c in name ==> !t.isAlpha(c) && !t.isDigit(c)
    ensures SanitizeName(t, name) == []
  {
    var s1 := Clean(t, name);
    CleanMembers(t, name);
    forall k | 0 <= k < |s1|
      ensures t.isSpace(s1[k])
    {
      assert s1[k] in s1;
    }
    assert StripStart(t, s1) == |s1|;
  }

  /** The slug is empty exactly when the name holds no letter and no digit. */
  lemma SanitizeEmptyIff(t: CharTable, name: string)
    requires t.Valid()
    ensures SanitizeName(t, name) == [] <==> forall c :: c in name ==> !t.isAlpha(c) && !t.isDigit(c)
  {
    if c :| c in name && (t.isAlpha(c) || t.isDigit(c)) {
      SlugNonEmpty(t, name, c);
    } else {
      SlugEmpty(t, name);
    }
  }

  /** Cleaning a name made only of kept characters changes nothing. */
  lemma {:induction false} CleanAllKept(t: CharTable, s: string)
    requires forall i :: 0 <= i < |s| ==> Kept(t, s[i])
    ensures Clean(t, s) == s
  {
    if s != [] {
      CleanAllKept(t, s[1..]);
    }
  }

  /** Lower-casing characters that each map to one character, position by position. */
  lemma {:induction false} LowerSingles(t: CharTable, s: string)
    requires forall i :: 0 <= i < |s| ==> |t.lower(s[i])| == 1
    ensures |Lower(t, s)| == |s|
    ensures forall i :: 0 <= i < |s| ==> Lower(t, s)[i] == t.lower(s[i])[0]
  {
    if s != [] {
      LowerSingles(t, s[1..]);
    }
  }

  /** The slug of a name that is already clean and stripped. */
  lemma SanitizeCleanName(t: CharTable, name: string)
    requires t.lower('-') == "-"
    requires forall i :: 0 <= i < |name| ==> Kept(t, name[i]) && |t.lower(name[i])| == 1
    requires name != [] ==> !t.isSpace(name[0]) && !t.isSpace(name[|name| - 1])
    ensures |SanitizeName(t, name)| == |name|
    ensures forall i :: 0 <= i < |name| ==>
      SanitizeName(t, name)[i] == if name[i] == ' ' then '-' else t.lower(name[i])[0]
  {
    CleanAllKept(t, name);
    StripTrimmed(t, name);
    var s3 := ReplaceSpaces(name);
    forall i | 0 <= i < |s3|
      ensures |t.lower(s3[i])| == 1
    {
      if name[i] == ' ' {
        assert s3[i] == '-';
      }
    }
    LowerSingles(t, s3);
  }

  /** The name "Manchester Utd", character by character. */
  ghost predicate SpellsManchesterUtd(name: string) {
    && |name| == 14
    && name[0] == 'M' && name[1] == 'a' && name[2] == 'n' && name[3] == 'c' && name[4] == 'h'
    && name[5] == 'e' && name[6] == 's' && name[7] == 't' && name[8] == 'e' && name[9] == 'r'
    && name[10] == ' ' && name[11] == 'U' && name[12] == 't' && name[13] == 'd'
  }

  /** The slug of "Manchester Utd", character by character. */
  lemma ManchesterUtdChars(name: string)
    requires SpellsManchesterUtd(name)
    ensures var slug := SanitizeName(Latin1, name);
      && |slug| == 14
      && slug[0] == 'm' && slug[1] == 'a' && slug[2] == 'n' && slug[3] == 'c' && slug[4] == 'h'
      && slug[5] == 'e' && slug[6] == 's' && slug[7] == 't' && slug[8] == 'e' && slug[9] == 'r'
      && slug[10] == '-' && slug[11] == 'u' && slug[12] == 't' && slug[13] == 'd'
  {
    ManchesterUtdKept(name);
    SanitizeCleanName(Latin1, name);
  }

  lemma ManchesterUtdKept(name: string)
    requires SpellsManchesterUtd(name)
    ensures forall i :: 0 <= i < |name| ==> Kept(Latin1, name[i]) && |Latin1.lower(name[i])| == 1
  {
  }

  /** Fourteen characters spelled out make the fourteen-character string. */
  lemma SpelledManchesterUtd(slug: string)
    requires |slug| == 14
    requires && slug[0] == 'm' && slug[1] == 'a' && slug[2] == 'n' && slug[3] == 'c' && slug[4] == 'h'
             && slug[5] == 'e' && slug[6] == 's' && slug[7] == 't' && slug[8] == 'e' && slug[9] == 'r'
             && slug[10] == '-' && slug[11] == 'u' && slug[12] == 't' && slug[13] == 'd'
    ensures slug == "manchester-utd"
  {
  }

  /** The example of the doc comment: "Manchester Utd" -> "manchester-utd". */
  lemma SanitizeManchesterUtd()
    ensures SanitizeName(Latin1, "Manchester Utd") == "manchester-utd"
  {
    ManchesterUtdChars("Manchester Utd");
    SpelledManchesterUtd(SanitizeName(Latin1, "Manchester Utd"));
  }

  /** A space becomes a hyphen: "a b" -> "a-b". */
  lemma SanitizeSpaceToHyphen()
    ensures SanitizeName(Latin1, "a b") == "a-b"
  {
    SanitizeCleanName(Latin1, "a b");
  }

  /** A hyphen of the input is punctuation and is dropped: "a-b" -> "ab". */
  lemma SanitizeDropsHyphen()
    ensures SanitizeName(Latin1, "a-b") == "ab"
  {
    assert Kept(Latin1, 'a') && !Kept(Latin1, '-') && Kept(Latin1, 'b');
    assert Clean(Latin1, "b") == "b" by { assert "b"[1..] == []; }
    assert Clean(Latin1, "-b") == "b" by { assert "-b"[1..] == "b"; }
    assert Clean(Latin1, "a-b") == "ab" by { assert "a-b"[1..] == "-b"; }
    SanitizeCleanName(Latin1, "ab");
  }

  /** Sanitizing twice is not sanitizing once: the hyphen that the first
      pass writes for a space is punctuation to the second pass. */
  lemma SanitizeNotIdempotent()
    ensures SanitizeName(Latin1, SanitizeName(Latin1, "a b")) == "ab" != SanitizeName(Latin1, "a b")
  {
    SanitizeSpaceToHyphen();
    SanitizeDropsHyphen();
  }

  /** The name "FC Bayern M\u00fcnchen", character by character. */
  ghost predicate SpellsBayern(name: string) {
    && |name| == 17
    && name[0] == 'F' && name[1] == 'C' && name[2] == ' ' && name[3] == 'B' && name[4] == 'a'
    && name[5] == 'y' && name[6] == 'e' && name[7] == 'r' && name[8] == 'n' && name[9] == ' '
    && name[10] == 'M' && name[11] == '\U{FC}' && name[12] == 'n' && name[13] == 'c'
    && name[14] == 'h' && name[15] == 'e' && name[16] == 'n'
  }

  /** The slug of "FC Bayern M\u00fcnchen", character by character: the
      umlaut is a letter and is kept. */
  lemma BayernChars(name: string)
    requires SpellsBayern(name)
    ensures var slug := SanitizeName(Latin1, name);
      && |slug| == 17
      && slug[0] == 'f' && slug[1] == 'c' && slug[2] == '-' && slug[3] == 'b' && slug[4] == 'a'
      && slug[5] == 'y' && slug[6] == 'e' && slug[7] == 'r' && slug[8] == 'n' && slug[9] == '-'
      && slug[10] == 'm' && slug[11] == '\U{FC}' && slug[12] == 'n' && slug[13] == 'c'
      && slug[14] == 'h' && slug[15] == 'e' && slug[16] == 'n'
  {
    BayernKept(name);
    SanitizeCleanName(Latin1, name);
  }

  lemma BayernKept(name: string)
    requires SpellsBayern(name)
    ensures forall i :: 0 <= i < |name| ==> Kept(Latin1, name[i]) && |Latin1.lower(name[i])| == 1
  {
  }

  /** Seventeen characters spelled out make the seventeen-character string. */
  lemma SpelledBayern(slug: string)
    requires |slug| == 17
    requires && slug[0] == 'f' && slug[1] == 'c' && slug[2] == '-' && slug[3] == 'b' && slug[4] == 'a'
             && slug[5] == 'y' && slug[6] == 'e' && slug[7] == 'r' && slug[8] == 'n' && slug[9] == '-'
             && slug[10] == 'm' && slug[11] == '\U{FC}' && slug[12] == 'n' && slug[13] == 'c'
             && slug[14] == 'h' && slug[15] == 'e' && slug[16] == 'n'
    ensures slug == "fc-bayern-m\U{FC}nchen"
  {
  }

  /** Letters outside ASCII survive: "FC Bayern M\u00fcnchen" -> "fc-bayern-m\u00fcnchen". */
  lemma SanitizeBayern()
    ensures SanitizeName(Latin1, "FC Bayern M\U{FC}nchen") == "fc-bayern-m\U{FC}nchen"
  {
    BayernChars("FC Bayern M\U{FC}nchen");
    SpelledBayern(SanitizeName(Latin1, "FC Bayern M\U{FC}nchen"));
  }
}
