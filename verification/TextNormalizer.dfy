/**
  `normalizeText`: the canonical form on which both similarity scores work.

  Lower-casing, NFD decomposition and the removal of combining marks are one abstract function
  `fold`; everything after it is modelled character by character.
 */
module TextNormalizer {

  /** The white space of JavaScript's `\s` and `trim`. */
  predicate IsWhitespace(c: char) {
    || '\U{0009}' <= c <= '\U{000D}'
    || c == ' ' || c == '\U{00A0}' || c == '\U{1680}'
    || '\U{2000}' <= c <= '\U{200A}'
    || c == '\U{2028}' || c == '\U{2029}' || c == '\U{202F}'
    || c == '\U{205F}' || c == '\U{3000}' || c == '\U{FEFF}'
  }

  predicate IsWordChar(c: char) {
    'a' <= c <= 'z' || '0' <= c <= '9'
  }

  predicate IsApostrophe(c: char) {
    c in {'\'', '\U{2019}', '\U{02BC}', '`'}
  }

  predicate IsPunctuation(c: char) {
    !IsWordChar(c) && !IsWhitespace(c)
  }

  const STOP_WORDS := {
    "ny", "dia", "ka", "fa", "sy", "no", "ho", "an", "ary", "raha",
    "toy", "toa", "koa", "aza", "moa", "re", "ve", "ity", "ireo", "izany"
  }

  function Replace(s: string, hit: char -> bool): string {
    if s == "" then ""
    else [if hit(s[0]) then ' ' else s[0]] + Replace(s[1..], hit)
  }

  /** Every maximal run of white space becomes one blank. */
  function Collapse(s: string): string {
    if s == "" then ""
    else if !IsWhitespace(s[0]) then [s[0]] + Collapse(s[1..])
    else if |s| > 1 && IsWhitespace(s[1]) then Collapse(s[1..])
    else [' '] + Collapse(s[1..])
  }

  function TrimStart(s: string): string {
    if s != "" && IsWhitespace(s[0]) then TrimStart(s[1..]) else s
  }

  function TrimEnd(s: string): string {
    if s != "" && IsWhitespace(s[|s| - 1]) then TrimEnd(s[..|s| - 1]) else s
  }

  function Trim(s: string): string {
    TrimEnd(TrimStart(s))
  }

  /** The pieces between blanks; one empty piece for the empty text, as in JavaScript. */
  function Split(s: string): (words: seq<string>)
    ensures words != []
  {
    if s == "" then [""]
    else
      var rest := Split(s[1..]);
      if s[0] == ' ' then [""] + rest
      else [[s[0]] + rest[0]] + rest[1..]
  }

  function Join(words: seq<string>): string {
    if words == [] then ""
    else if |words| == 1 then words[0]
    else words[0] + " " + Join(words[1..])
  }

  function KeepWords(words: seq<string>): seq<string> {
    if words == [] then []
    else
      var rest := KeepWords(words[1..]);
      if |words[0]| > 1 && words[0] !in STOP_WORDS then [words[0]] + rest else rest
  }

  function Clean(fold: string -> string, text: string): string {
    var noApostrophes := Replace(fold(text), IsApostrophe);
    var noPunctuation := Replace(noApostrophes, IsPunctuation);
    Trim(Collapse(noPunctuation))
  }

  /** `normalizeText`, whose second argument defaults to true. */
  function Normalize(fold: string -> string, text: string, removeStopWords: bool := true): string {
    if text == "" then ""
    else if removeStopWords then Join(KeepWords(Split(Clean(fold, text))))
    else Clean(fold, text)
  }

  // ---------- What a canonical text looks like ----------

  /** Only characters of [a-z0-9 ]. */
  ghost predicate Plain(s: string) {
    forall i | 0 <= i < |s| :: IsWordChar(s[i]) || s[i] == ' '
  }

  /** Words over [a-z0-9] with one blank between two words, none at either end. */
  ghost predicate Canonical(s: string) {
    && Plain(s)
    && (s != "" ==> s[0] != ' ' && s[|s| - 1] != ' ')
    && (forall i | 0 <= i < |s| - 1 :: s[i] == ' ' ==> s[i + 1] != ' ')
  }

  /** `fold` does nothing to a text that is already over [a-z0-9 ]. */
  ghost predicate FoldKeepsPlain(fold: string -> string) {
    forall s | Plain(s) :: fold(s) == s
  }

  // ---------- The cleaning pass yields a canonical text ----------

  /** Only blanks and other characters, two blanks never adjacent. */
  ghost predicate SingleBlanks(s: string) {
    && Plain(s)
    && (forall i | 0 <= i < |s| - 1 :: s[i] == ' ' ==> s[i + 1] != ' ')
  }

  lemma {:induction false} ReplaceAll(s: string, hit: char -> bool)
    ensures |Replace(s, hit)| == |s|
    ensures forall i | 0 <= i < |s| :: Replace(s, hit)[i] == if hit(s[i]) then ' ' else s[i]
  {
    if s != "" {
      ReplaceAll(s[1..], hit);
    }
  }

  lemma {:induction false} CollapseSingles(s: string)
    requires forall i | 0 <= i < |s| :: IsWordChar(s[i]) || IsWhitespace(s[i])
    ensures SingleBlanks(Collapse(s))
    ensures s != "" && Collapse(s) != "" && !IsWhitespace(s[0]) ==> Collapse(s)[0] != ' '
  {
    if s != "" {
      CollapseSingles(s[1..]);
      var rest := Collapse(s[1..]);
      if !IsWhitespace(s[0]) {
        SinglesCons(s[0], rest);
      } else if |s| > 1 && IsWhitespace(s[1]) {
      } else {
        SinglesCons(' ', rest);
      }
    }
  }

  lemma SinglesCons(c: char, rest: string)
    requires SingleBlanks(rest)
    requires IsWordChar(c) || (c == ' ' && (rest != "" ==> rest[0] != ' '))
    ensures SingleBlanks([c] + rest)
  {
  }

  lemma {:induction false} TrimStartSingles(s: string)
    requires SingleBlanks(s)
    ensures SingleBlanks(TrimStart(s))
    ensures TrimStart(s) != "" ==> !IsWhitespace(TrimStart(s)[0])
  {
    if s != "" && IsWhitespace(s[0]) {
      TrimStartSingles(s[1..]);
    }
  }

  lemma {:induction false} TrimEndSingles(s: string)
    requires SingleBlanks(s)
    ensures SingleBlanks(TrimEnd(s))
    ensures TrimEnd(s) != "" ==> !IsWhitespace(TrimEnd(s)[|TrimEnd(s)| - 1]) && TrimEnd(s)[0] == s[0]
  {
    if s != "" && IsWhitespace(s[|s| - 1]) {
      TrimEndSingles(s[..|s| - 1]);
    }
  }

  lemma CleanIsCanonical(fold: string -> string, text: string)
    ensures Canonical(Clean(fold, text))
  {
    var noApostrophes := Replace(fold(text), IsApostrophe);
    ReplaceAll(noApostrophes, IsPunctuation);
    var noPunctuation := Replace(noApostrophes, IsPunctuation);
    CollapseSingles(noPunctuation);
    TrimStartSingles(Collapse(noPunctuation));
    TrimEndSingles(TrimStart(Collapse(noPunctuation)));
  }

  // ---------- A canonical text is a fixed point ----------

  lemma {:induction false} CollapseKeepsSingles(s: string)
    requires SingleBlanks(s)
    ensures Collapse(s) == s
  {
    if s != "" {
      CollapseKeepsSingles(s[1..]);
      assert s == [s[0]] + s[1..];
    }
  }

  lemma CleanKeepsCanonical(fold: string -> string, s: string)
    requires FoldKeepsPlain(fold) && Canonical(s)
    ensures Clean(fold, s) == s
  {
    ReplaceNothing(s, IsApostrophe);
    ReplaceNothing(s, IsPunctuation);
    CollapseKeepsSingles(s);
  }

  lemma {:induction false} ReplaceNothing(s: string, hit: char -> bool)
    requires forall i | 0 <= i < |s| :: hit(s[i]) ==> s[i] == ' '
    ensures Replace(s, hit) == s
  {
    if s != "" {
      ReplaceNothing(s[1..], hit);
      assert s == [s[0]] + s[1..];
    }
  }

  // ---------- Splitting into words and joining them again ----------

  ghost predicate NoBlank(w: string) {
    forall i | 0 <= i < |w| :: IsWordChar(w[i])
  }

  ghost predicate IsWord(w: string) {
    w != "" && NoBlank(w)
  }

  ghost predicate AreWords(words: seq<string>) {
    forall w | w in words :: IsWord(w)
  }

  lemma {:induction false} KeepWordsAreWords(words: seq<string>)
    requires AreWords(words)
    ensures AreWords(KeepWords(words))
    ensures forall w | w in KeepWords(words) :: |w| > 1 && w !in STOP_WORDS
  {
    if words != [] {
      KeepWordsAreWords(words[1..]);
    }
  }

  lemma {:induction false} KeepWordsFixed(words: seq<string>)
    requires forall w | w in words :: |w| > 1 && w !in STOP_WORDS
    ensures KeepWords(words) == words
  {
    if words != [] {
      assert words[0] in words;
      KeepWordsFixed(words[1..]);
      assert words == [words[0]] + words[1..];
    }
  }

  lemma {:induction false} JoinIsCanonical(words: seq<string>)
    requires AreWords(words)
    ensures Canonical(Join(words))
    ensures words != [] ==> Join(words) != "" && Join(words)[0] == words[0][0]
  {
    if |words| > 1 {
      JoinIsCanonical(words[1..]);
      var w, rest := words[0], Join(words[1..]);
      assert IsWord(w) && IsWord(words[1]);
      assert w + " " + rest == w + [' '] + rest;
    } else if |words| == 1 {
      assert IsWord(words[0]);
    }
  }

  /** Splitting undoes joining, for a word followed by any text. */
  lemma {:induction false} SplitWord(w: string, rest: string)
    requires NoBlank(w)
    ensures Split(w + " " + rest) == [w] + Split(rest)
    ensures Split(w) == [w]
  {
    if w == "" {
      assert (w + " " + rest)[1..] == rest;
    } else {
      SplitWord(w[1..], rest);
      assert (w + " " + rest)[1..] == w[1..] + " " + rest;
      assert w == [w[0]] + w[1..];
    }
  }

  lemma {:induction false} SplitJoin(words: seq<string>)
    requires words != [] && AreWords(words)
    ensures Split(Join(words)) == words
  {
    assert IsWord(words[0]);
    if |words| == 1 {
      SplitWord(words[0], "");
      assert words == [words[0]];
    } else {
      SplitJoin(words[1..]);
      SplitWord(words[0], Join(words[1..]));
      assert words == [words[0]] + words[1..];
    }
  }

  // ---------- The words of a text ----------

  predicate StartsWord(s: string) {
    s != "" && IsWordChar(s[0])
  }

  /** The maximal runs of word characters, in order: what the canonical form is meant to keep. */
  function Runs(s: string): (words: seq<string>)
    ensures StartsWord(s) ==> words != []
  {
    if s == "" then []
    else
      var rest := Runs(s[1..]);
      if !IsWordChar(s[0]) then rest
      else if StartsWord(s[1..]) then [[s[0]] + rest[0]] + rest[1..]
      else [[s[0]]] + rest
  }

  lemma {:induction false} RunsOfReplace(s: string, hit: char -> bool)
    requires forall c | hit(c) :: !IsWordChar(c)
    ensures Runs(Replace(s, hit)) == Runs(s)
    ensures StartsWord(Replace(s, hit)) == StartsWord(s)
  {
    if s != "" {
      RunsOfReplace(s[1..], hit);
      assert Replace(s, hit)[1..] == Replace(s[1..], hit);
    }
  }

  lemma {:induction false} RunsOfCollapse(s: string)
    ensures Runs(Collapse(s)) == Runs(s)
    ensures StartsWord(Collapse(s)) == StartsWord(s)
  {
    if s != "" {
      RunsOfCollapse(s[1..]);
      if !IsWhitespace(s[0]) || |s| == 1 || !IsWhitespace(s[1]) {
        assert Collapse(s)[1..] == Collapse(s[1..]);
      }
    }
  }

  lemma {:induction false} RunsOfTrimStart(s: string)
    ensures Runs(TrimStart(s)) == Runs(s)
  {
    if s != "" && IsWhitespace(s[0]) {
      RunsOfTrimStart(s[1..]);
    }
  }

  lemma {:induction false} RunsBeforeBlank(s: string, c: char)
    requires !IsWordChar(c)
    ensures Runs(s + [c]) == Runs(s)
  {
    if s != "" {
      RunsBeforeBlank(s[1..], c);
      assert (s + [c])[1..] == s[1..] + [c];
    }
  }

  lemma {:induction false} RunsOfTrimEnd(s: string)
    ensures Runs(TrimEnd(s)) == Runs(s)
  {
    if s != "" && IsWhitespace(s[|s| - 1]) {
      RunsOfTrimEnd(s[..|s| - 1]);
      RunsBeforeBlank(s[..|s| - 1], s[|s| - 1]);
      assert s == s[..|s| - 1] + [s[|s| - 1]];
    }
  }

  lemma {:induction false} RunsAreWords(s: string)
    ensures AreWords(Runs(s))
  {
    if s != "" {
      RunsAreWords(s[1..]);
      if StartsWord(s[1..]) {
        assert IsWord(Runs(s[1..])[0]);
      }
    }
  }

  /** A canonical text is its words joined by blanks. */
  lemma {:induction false} JoinRuns(s: string)
    requires SingleBlanks(s) && (s != "" ==> s[|s| - 1] != ' ')
    ensures s == if s != "" && s[0] == ' ' then " " + Join(Runs(s)) else Join(Runs(s))
    ensures s != "" ==> Runs(s) != []
  {
    if s != "" {
      var t := s[1..];
      JoinRuns(t);
      assert s == [s[0]] + t;
      var rest := Runs(t);
      if s[0] == ' ' {
      } else if StartsWord(t) {
        JoinFirst(s[0], rest);
      } else if t != "" {
        assert Join([[s[0]]] + rest) == [s[0]] + " " + Join(rest);
      }
    }
  }

  lemma JoinFirst(c: char, words: seq<string>)
    requires words != []
    ensures Join([[c] + words[0]] + words[1..]) == [c] + Join(words)
  {
    var more := [[c] + words[0]] + words[1..];
    assert more[1..] == words[1..];
  }

  /** Cleaning keeps exactly the words of the folded text and nothing else. */
  lemma CleanIsJoinedRuns(fold: string -> string, text: string)
    ensures Clean(fold, text) == Join(Runs(fold(text)))
  {
    var f := fold(text);
    var a := Replace(f, IsApostrophe);
    var b := Replace(a, IsPunctuation);
    RunsOfReplace(f, IsApostrophe);
    RunsOfReplace(a, IsPunctuation);
    RunsOfCollapse(b);
    RunsOfTrimStart(Collapse(b));
    RunsOfTrimEnd(TrimStart(Collapse(b)));
    CleanIsCanonical(fold, text);
    JoinRuns(Clean(fold, text));
  }

  // ---------- The two main results ----------

  /**
    What `normalizeText` returns: the words of the folded text joined by single blanks, without
    the stop words and one-letter words unless the caller asked to keep them.
   */
  lemma NormalizeIsJoinedWords(fold: string -> string, text: string)
    requires text != ""
    ensures Normalize(fold, text, false) == Join(Runs(fold(text)))
    ensures Normalize(fold, text, true) == Join(KeepWords(Runs(fold(text))))
  {
    var words := Runs(fold(text));
    CleanIsJoinedRuns(fold, text);
    RunsAreWords(fold(text));
    if words == [] {
      assert KeepWords([""]) == [];
    } else {
      SplitJoin(words);
    }
  }

  /** The words kept from a text: all longer than one letter, no stop word among them. */
  lemma KeptWords(fold: string -> string, text: string) returns (words: seq<string>)
    ensures AreWords(words) && forall w | w in words :: |w| > 1 && w !in STOP_WORDS
    ensures Normalize(fold, text) == Join(words)
  {
    if text == "" {
      words := [];
    } else {
      words := KeepWords(Runs(fold(text)));
      NormalizeIsJoinedWords(fold, text);
      RunsAreWords(fold(text));
      KeepWordsAreWords(Runs(fold(text)));
    }
  }

  /** Both modes return a canonical text, whatever the input. */
  lemma NormalizeIsCanonical(fold: string -> string, text: string, removeStopWords: bool)
    ensures Canonical(Normalize(fold, text, removeStopWords))
  {
    CleanIsCanonical(fold, text);
    if removeStopWords {
      var words := KeptWords(fold, text);
      JoinIsCanonical(words);
    }
  }

  /**
    Normalising twice is normalising once, in every combination of modes that ends with the
    weaker one or repeats the same one; `detectDuplicate` relies on it when it scores an already
    normalised input.
   */
  lemma NormalizeIdempotent(fold: string -> string, text: string, removeStopWords: bool)
    requires FoldKeepsPlain(fold)
    ensures var once := Normalize(fold, text, removeStopWords);
            && Normalize(fold, once, removeStopWords) == once
            && Normalize(fold, once, false) == once
  {
    var once := Normalize(fold, text, removeStopWords);
    NormalizeIsCanonical(fold, text, removeStopWords);
    CleanKeepsCanonical(fold, once);
    if removeStopWords && once != "" {
      var words := KeptWords(fold, text);
      SplitJoin(words);
      KeepWordsFixed(words);
    }
  }
}
