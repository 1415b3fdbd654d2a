/**
 `slugify`: a URL-safe name of at most 60 characters.

 Lower-casing is the parameter `lower`, so that what is proved holds for the host's full Unicode
 lower-casing; the only thing needed of it is that it leaves slugs alone.
 */
module Slugs {

  const MAX_LENGTH: nat := 60

  predicate IsWordChar(c: char) {
    'a' <= c <= 'z' || '0' <= c <= '9'
  }

  /** White space and line terminators, as trimmed by the host language. */
  predicate IsSpace(c: char) {
    var n := c as int;
    || 9 <= n <= 13 || n == 32 || n == 0xA0 || n == 0x1680 || 0x2000 <= n <= 0x200A
    || n == 0x2028 || n == 0x2029 || n == 0x202F || n == 0x205F || n == 0x3000 || n == 0xFEFF
  }

  function TrimStart(s: string): string {
    if s != "" && IsSpace(s[0]) then TrimStart(s[1..]) else s
  }

  function TrimEnd(s: string): string {
    if s != "" && IsSpace(s[|s| - 1]) then TrimEnd(s[..|s| - 1]) else s
  }

  /** The rest of a string after a leading run of characters that do not belong in a word. */
  function SkipOthers(s: string): (r: string)
    ensures |r| <= |s| && (r != "" ==> IsWordChar(r[0]))
    ensures s != "" && !IsWordChar(s[0]) ==> |r| < |s|
  {
    if s != "" && !IsWordChar(s[0]) then SkipOthers(s[1..]) else s
  }

  /** Replaces every maximal run of other characters by one hyphen. */
  function Hyphenate(s: string): string
    decreases |s|
  {
    if s == "" then ""
    else if IsWordChar(s[0]) then [s[0]] + Hyphenate(s[1..])
    else "-" + Hyphenate(SkipOthers(s))
  }

  function StripStart(s: string): string {
    if s != "" && s[0] == '-' then StripStart(s[1..]) else s
  }

  function StripEnd(s: string): (r: string)
    ensures r <= s
    ensures r != "" ==> r[|r| - 1] != '-'
  {
    if s != "" && s[|s| - 1] == '-' then StripEnd(s[..|s| - 1]) else s
  }

  function Cut(s: string): string {
    if |s| <= MAX_LENGTH then s else s[..MAX_LENGTH]
  }

  function Slugify(lower: string -> string, input: string): string {
    var slug := StripEnd(Cut(StripEnd(StripStart(Hyphenate(TrimEnd(TrimStart(lower(input))))))));
    if slug == "" then "workspace" else slug
  }

  // ---------------------------------------------------------------------------
  // The form of a slug

  /** Word characters and hyphens, no two hyphens in a row. */
  ghost predicate SingleHyphens(s: string) {
    && (forall i :: 0 <= i < |s| ==> IsWordChar(s[i]) || s[i] == '-')
    && (forall i :: 0 < i < |s| && s[i] == '-' ==> s[i - 1] != '-')
  }

  /** One to 60 characters: non-empty words joined by single hyphens. */
  ghost predicate IsSlug(s: string) {
    && 1 <= |s| <= MAX_LENGTH
    && SingleHyphens(s)
    && s[0] != '-' && s[|s| - 1] != '-'
  }

  lemma {:induction false} HyphenateSingle(s: string)
    ensures SingleHyphens(Hyphenate(s))
    ensures s != "" ==> Hyphenate(s) != "" && (Hyphenate(s)[0] == '-' <==> !IsWordChar(s[0]))
    decreases |s|
  {
    if s != "" {
      if IsWordChar(s[0]) {
        HyphenateSingle(s[1..]);
      } else {
        HyphenateSingle(SkipOthers(s));
      }
    }
  }

  lemma {:induction false} StripStartSingle(s: string)
    requires SingleHyphens(s)
    ensures SingleHyphens(StripStart(s))
    ensures StripStart(s) != "" ==> StripStart(s)[0] != '-'
  {
    if s != "" && s[0] == '-' {
      StripStartSingle(s[1..]);
    }
  }

  lemma PrefixSingle(s: string, r: string)
    requires SingleHyphens(s) && r <= s
    ensures SingleHyphens(r)
  {
  }

  /** For every input the result is a slug, even when the cut lands on a hyphen. */
  lemma SlugifyIsSlug(lower: string -> string, input: string)
    ensures IsSlug(Slugify(lower, input))
  {
    var h := Hyphenate(TrimEnd(TrimStart(lower(input))));
    HyphenateSingle(TrimEnd(TrimStart(lower(input))));
    StripStartSingle(h);
    var stripped := StripEnd(StripStart(h));
    PrefixSingle(StripStart(h), stripped);
    PrefixSingle(stripped, Cut(stripped));
    PrefixSingle(Cut(stripped), StripEnd(Cut(stripped)));
  }

  // ---------------------------------------------------------------------------
  // A slug is its own slug

  lemma {:induction false} HyphenateFixes(s: string)
    requires SingleHyphens(s)
    ensures Hyphenate(s) == s
  {
    if s != "" {
      HyphenateFixes(s[1..]);
      if s[0] == '-' {
        assert SkipOthers(s) == SkipOthers(s[1..]) == s[1..];
      }
    }
  }

  lemma SlugFixed(lower: string -> string, s: string)
    requires IsSlug(s) && lower(s) == s
    ensures Slugify(lower, s) == s
  {
    HyphenateFixes(s);
  }

  /** Slugifying twice is slugifying once. */
  lemma SlugifyIdempotent(lower: string -> string, input: string)
    requires forall s :: IsSlug(s) ==> lower(s) == s
    ensures Slugify(lower, Slugify(lower, input)) == Slugify(lower, input)
  {
    SlugifyIsSlug(lower, input);
    SlugFixed(lower, Slugify(lower, input));
  }

  // ---------------------------------------------------------------------------
  // What the slug says: the words of the input, joined by hyphens

  function Word(s: string): (w: string)
    ensures w <= s && (forall i :: 0 <= i < |w| ==> IsWordChar(w[i]))
    ensures |w| < |s| ==> !IsWordChar(s[|w|])
    ensures s != "" && IsWordChar(s[0]) ==> w != ""
  {
    if s != "" && IsWordChar(s[0]) then [s[0]] + Word(s[1..]) else ""
  }

  /** The maximal runs of word characters of a string. */
  function Words(s: string): seq<string>
    decreases |s|
  {
    if s == "" then []
    else if !IsWordChar(s[0]) then Words(s[1..])
    else [Word(s)] + Words(s[|Word(s)|..])
  }

  function Joined(words: seq<string>): string {
    if words == [] then ""
    else if |words| == 1 then words[0]
    else words[0] + "-" + Joined(words[1..])
  }

  lemma {:induction false} WordsSkip(s: string)
    ensures Words(SkipOthers(s)) == Words(s)
  {
    if s != "" && !IsWordChar(s[0]) {
      WordsSkip(s[1..]);
    }
  }

  lemma {:induction false} HyphenateWord(w: string, rest: string)
    requires forall i :: 0 <= i < |w| ==> IsWordChar(w[i])
    ensures Hyphenate(w + rest) == w + Hyphenate(rest)
    decreases |w|
  {
    if w == "" {
      assert w + rest == rest;
    } else {
      HyphenateWord(w[1..], rest);
      assert (w + rest)[1..] == w[1..] + rest;
    }
  }

  lemma {:induction false} StripEndAfter(a: string, b: string)
    requires StripEnd(b) != ""
    ensures StripEnd(a + b) == a + StripEnd(b)
    decreases |b|
  {
    if b[|b| - 1] == '-' {
      StripEndAfter(a, b[..|b| - 1]);
      assert (a + b)[..|a + b| - 1] == a + b[..|b| - 1];
    }
  }

  lemma JoinedCons(w: string, words: seq<string>)
    ensures Joined([w] + words) == if words == [] then w else w + "-" + Joined(words)
  {
    assert ([w] + words)[1..] == words;
  }

  lemma {:induction false} StripEndPlain(w: string)
    requires w != "" && w[|w| - 1] != '-'
    ensures StripEnd(w) == w && StripEnd(w + "-") == w
  {
    assert (w + "-")[..|w + "-"| - 1] == w;
  }

  /** After a word: what follows the next other characters, joined on with one hyphen, or nothing. */
  lemma {:induction false} StripEndWord(w: string, rest: string)
    requires w != "" && (forall i :: 0 <= i < |w| ==> IsWordChar(w[i])) && (rest != "" ==> !IsWordChar(rest[0]))
    requires SkipOthers(rest) != "" ==> StripEnd(Hyphenate(SkipOthers(rest))) != ""
    ensures StripEnd(Hyphenate(w + rest)) ==
      if SkipOthers(rest) == "" then w else w + "-" + StripEnd(Hyphenate(SkipOthers(rest)))
  {
    HyphenateWord(w, rest);
    StripEndPlain(w);
    if rest == "" {
      assert w + "" == w;
    } else {
      var tail := Hyphenate(SkipOthers(rest));
      assert Hyphenate(rest) == "-" + tail;
      assert w + ("-" + tail) == (w + "-") + tail;
      if SkipOthers(rest) == "" {
        assert w + "-" + "" == w + "-";
      } else {
        StripEndAfter(w + "-", tail);
      }
    }
  }

  /** A string that starts with a word: hyphenated and stripped it is its words joined. */
  lemma {:induction false} StrippedIsJoined(s: string)
    requires s != "" ==> IsWordChar(s[0])
    ensures StripEnd(Hyphenate(s)) == Joined(Words(s))
    ensures s != "" ==> Words(s) != [] && Joined(Words(s)) != ""
    decreases |s|
  {
    if s != "" {
      var w := Word(s);
      var rest := s[|w|..];
      var next := SkipOthers(rest);
      assert s == w + rest;
      WordsSkip(rest);
      StrippedIsJoined(next);
      StripEndWord(w, rest);
      JoinedCons(w, Words(next));
    }
  }

  lemma {:induction false} WordsTrimStart(s: string)
    ensures Words(TrimStart(s)) == Words(s)
  {
    if s != "" && IsSpace(s[0]) {
      WordsTrimStart(s[1..]);
    }
  }

  lemma {:induction false} WordsDropLast(s: string)
    requires s != "" && !IsWordChar(s[|s| - 1])
    ensures Words(s[..|s| - 1]) == Words(s)
    decreases |s|
  {
    var init := s[..|s| - 1];
    if IsWordChar(s[0]) {
      var w := Word(s);
      WordOfPrefix(s);
      WordsDropLast(s[|w|..]);
      assert s[|w|..][..|s[|w|..]| - 1] == init[|w|..];
    } else if |s| > 1 {
      WordsDropLast(s[1..]);
      assert s[1..][..|s| - 2] == init[1..];
    }
  }

  lemma {:induction false} WordOfPrefix(s: string)
    requires s != "" && !IsWordChar(s[|s| - 1])
    ensures Word(s[..|s| - 1]) == Word(s) && |Word(s)| < |s|
    decreases |s|
  {
    if IsWordChar(s[0]) {
      WordOfPrefix(s[1..]);
      assert s[..|s| - 1][1..] == s[1..][..|s| - 2];
    }
  }

  lemma {:induction false} WordsTrimEnd(s: string)
    ensures Words(TrimEnd(s)) == Words(s)
    decreases |s|
  {
    if s != "" && IsSpace(s[|s| - 1]) {
      WordsTrimEnd(s[..|s| - 1]);
      WordsDropLast(s);
    }
  }

  lemma {:induction false} StripStartHyphenate(s: string)
    ensures StripStart(Hyphenate(s)) == Hyphenate(SkipOthers(s))
  {
    var rest := SkipOthers(s);
    HyphenateSingle(rest);
    if s != "" && !IsWordChar(s[0]) {
      assert ("-" + Hyphenate(rest))[1..] == Hyphenate(rest);
    }
  }

  /**
   The slug is the lower-cased input's words joined by single hyphens, cut to 60 characters and
   then rid of a hyphen at the end; without any word it is "workspace".
   */
  lemma SlugifyJoinsWords(lower: string -> string, input: string)
    ensures var joined := Joined(Words(lower(input)));
      Slugify(lower, input) == if joined == "" then "workspace" else StripEnd(Cut(joined))
  {
    var trimmed := TrimEnd(TrimStart(lower(input)));
    WordsTrimStart(lower(input));
    WordsTrimEnd(TrimStart(lower(input)));
    StripStartHyphenate(trimmed);
    WordsSkip(trimmed);
    StrippedIsJoined(SkipOthers(trimmed));
    var joined := Joined(Words(lower(input)));
    assert Cut(joined) != "" <==> joined != "";
    if joined != "" {
      HyphenateSingle(SkipOthers(trimmed));
      assert joined[0] != '-';
      StripEndKeepsFirst(Cut(joined));
    }
  }

  lemma {:induction false} StripEndKeepsFirst(s: string)
    requires s != "" && s[0] != '-'
    ensures StripEnd(s) != ""
    decreases |s|
  {
    if s[|s| - 1] == '-' {
      StripEndKeepsFirst(s[..|s| - 1]);
    }
  }
}
