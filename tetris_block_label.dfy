// The label drawn on a falling block: a skill name shortened to at most two
// upper-case characters, plus the font size and corner radius chosen from
// the block's pixel size.

module TetrisBlockLabel {

  /** The characters the regular-expression class \s matches in JavaScript. */
  predicate IsSpace(c: char)
  {
    c == ' ' || c == '\t' || c == '\n' || c == '\U{B}' || c == '\U{C}' || c == '\r'
    || c == '\U{A0}' || c == '\U{1680}' || ('\U{2000}' <= c <= '\U{200A}')
    || c == '\U{2028}' || c == '\U{2029}' || c == '\U{202F}' || c == '\U{205F}'
    || c == '\U{3000}' || c == '\U{FEFF}'
  }

  /** The characters of the class [\s.-] that separates words. */
  predicate IsSeparator(c: char)
  {
    IsSpace(c) || c == '.' || c == '-'
  }

  predicate HasSeparator(s: string)
  {
    exists i :: 0 <= i < |s| && IsSeparator(s[i])
  }

  /** Drops a leading run of separators. */
  function SkipSeparators(s: string): (r: string)
    ensures |r| <= |s| && r == s[|s| - |r|..]
    ensures r == [] || !IsSeparator(r[0])
    ensures forall i :: 0 <= i < |s| - |r| ==> IsSeparator(s[i])
  {
    if s != [] && IsSeparator(s[0]) then SkipSeparators(s[1..]) else s
  }

  /**
   * String.prototype.split with the pattern /[\s.-]+/: the pieces between
   * maximal runs of separators.  A separator at either end yields an empty
   * first or last piece; a string without separators is one piece.
   */
  function Words(s: string): (ws: seq<string>)
    ensures |ws| >= 1
    ensures forall k, i :: 0 <= k < |ws| && 0 <= i < |ws[k]| ==> !IsSeparator(ws[k][i])
    decreases |s|
  {
    if s == [] then
      [""]
    else if !IsSeparator(s[0]) then
      var rest := Words(s[1..]);
      [[s[0]] + rest[0]] + rest[1..]
    else
      [""] + Words(SkipSeparators(s[1..]))
  }

  /** A name splits into several words exactly when it contains a separator. */
  lemma {:induction false} WordsCount(s: string)
    ensures |Words(s)| > 1 <==> HasSeparator(s)
    decreases |s|
  {
    if s != [] && !IsSeparator(s[0]) {
      WordsCount(s[1..]);
      if HasSeparator(s[1..]) {
        var i :| 0 <= i < |s[1..]| && IsSeparator(s[1..][i]);
        assert IsSeparator(s[i + 1]);
      }
      if HasSeparator(s) {
        var i :| 0 <= i < |s| && IsSeparator(s[i]);
        assert IsSeparator(s[1..][i - 1]);
      }
    } else if s != [] {
      assert IsSeparator(s[0]);
    }
  }

  /** The first character of a word, or nothing for an empty word. */
  function Head(w: string): (h: string)
    ensures |h| <= 1 && h <= w
    ensures w != [] ==> h == [w[0]]
  {
    if w == [] then [] else [w[0]]
  }

  /** words.map(word => word[0]).join(''): an empty word's undefined joins as nothing. */
  function FirstLetters(ws: seq<string>): (r: string)
    ensures |r| <= |ws|
  {
    if ws == [] then [] else Head(ws[0]) + FirstLetters(ws[1..])
  }

  /**
   * The word initials read straight off the name: every non-separator
   * character that starts the name (when atStart) or follows a separator.
   */
  function Initials(s: string, atStart: bool): (r: string)
    ensures |r| <= |s|
  {
    if s == [] then
      []
    else
      (if atStart && !IsSeparator(s[0]) then [s[0]] else []) + Initials(s[1..], IsSeparator(s[0]))
  }

  lemma {:induction false} InitialsSkip(s: string)
    ensures Initials(SkipSeparators(s), true) == Initials(s, true)
    decreases |s|
  {
    if s != [] && IsSeparator(s[0]) {
      InitialsSkip(s[1..]);
    }
  }

  /** Splitting then taking first letters gives the initials of the name. */
  lemma {:induction false} FirstLettersOfWords(s: string)
    ensures FirstLetters(Words(s)) == Initials(s, true)
    ensures FirstLetters(Words(s)[1..]) == Initials(s, false)
    decreases |s|
  {
    if s == [] {
    } else if !IsSeparator(s[0]) {
      var rest := Words(s[1..]);
      FirstLettersOfWords(s[1..]);
      var ws := [[s[0]] + rest[0]] + rest[1..];
      assert Words(s) == ws;
      assert ws[1..] == rest[1..];
      assert FirstLetters(ws) == [s[0]] + FirstLetters(rest[1..]);
    } else {
      var tail := SkipSeparators(s[1..]);
      FirstLettersOfWords(tail);
      InitialsSkip(s[1..]);
      assert Words(s) == [""] + Words(tail);
      assert Words(s)[1..] == Words(tail);
      assert FirstLetters(Words(s)) == FirstLetters(Words(tail));
    }
  }

  /**
   * toUpperCase for the characters modelled: ASCII and Latin-1 letters map
   * to their capitals, 'ß' expands to "SS"; every other character maps to
   * itself.
   */
  function UpperChar(c: char): (u: string)
    ensures c != 'ß' ==> |u| == 1
    ensures c == 'ß' ==> u == "SS"
  {
    if 'a' <= c <= 'z' then [(c as int - 32) as char]
    else if c == 'ß' then "SS"
    else if ('à' <= c <= 'þ') && c != '÷' then [(c as int - 32) as char]
    else if c == 'µ' then "\U{39C}"
    else if c == 'ÿ' then "\U{178}"
    else [c]
  }

  function Upper(s: string): (u: string)
    ensures |u| >= |s|
    ensures (forall i :: 0 <= i < |s| ==> s[i] != 'ß') ==> |u| == |s|
  {
    if s == [] then [] else UpperChar(s[0]) + Upper(s[1..])
  }

  lemma {:induction false} UpperAppend(a: string, b: string)
    ensures Upper(a + b) == Upper(a) + Upper(b)
    decreases |a|
  {
    if a == [] {
      assert a + b == b;
    } else {
      assert (a + b)[0] == a[0];
      assert (a + b)[1..] == a[1..] + b;
      UpperAppend(a[1..], b);
    }
  }

  /** String.prototype.slice(0, n) for n >= 0: the end is clamped into the string. */
  function Take(s: string, n: nat): (r: string)
    ensures r <= s
    ensures |r| == if |s| <= n then |s| else n
  {
    if |s| <= n then s else s[..n]
  }

  /** The skills with a fixed two-letter code, checked before any splitting. */
  const SpecialCodes: map<string, string> := map[
    "TypeScript" := "TS", "JavaScript" := "JS", "PostgreSQL" := "PG",
    "TailwindCSS" := "TW", "Next.js" := "NX", "Node.js" := "ND",
    "OpenCV" := "CV", "Kubernetes" := "K8"]

  /**
   * getAbbreviation exactly as written: the single-word path slices two
   * characters and then upper-cases them.
   */
  function AbbreviationAsWritten(name: string): (r: string)
    ensures |name| <= 2 ==> r == name
    ensures |name| > 2 && name in SpecialCodes ==> r == SpecialCodes[name]
    ensures |r| > 2 ==> |name| > 2 && (name[0] == 'ß' || name[1] == 'ß')
  {
    if |name| <= 2 then name
    else if name in SpecialCodes then SpecialCodes[name]
    else
      var words := Words(name);
      if |words| > 1 then Take(Upper(FirstLetters(words)), 2)
      else
        var head := Take(name, 2);
        assert head[0] == name[0] && head[1] == name[1];
        Upper(head)
  }

  /** Upper-casing can lengthen a character, so the slice-then-upper order exceeds two characters. */
  lemma AsWrittenExceedsTwo()
    ensures AbbreviationAsWritten("ßql") == "SSQ"
    ensures |AbbreviationAsWritten("ßql")| == 3
  {
    var name := "ßql";
    assert !IsSeparator(name[0]) && !IsSeparator(name[1]) && !IsSeparator(name[2]);
    WordsCount(name);
    assert Take(name, 2) == "ßq";
    assert Upper("ßq") == "SS" + Upper("q");
  }

  /**
   * getAbbreviation with the single-word path upper-casing before it
   * slices, as the multi-word path already does.
   */
  function Abbreviation(name: string): (r: string)
    ensures |r| <= 2
    ensures |name| <= 2 ==> r == name
  {
    if |name| <= 2 then name
    else if name in SpecialCodes then SpecialCodes[name]
    else
      var words := Words(name);
      if |words| > 1 then Take(Upper(FirstLetters(words)), 2)
      else Take(Upper(name), 2)
  }

  /** Every path of the abbreviation, stated against the name itself rather than its split. */
  lemma AbbreviationSpec(name: string)
    ensures |name| > 2 && name in SpecialCodes ==> Abbreviation(name) == SpecialCodes[name]
    ensures |name| > 2 && name !in SpecialCodes && HasSeparator(name) ==>
      Abbreviation(name) == Take(Upper(Initials(name, true)), 2)
    ensures |name| > 2 && name !in SpecialCodes && !HasSeparator(name) ==>
      Abbreviation(name) == Take(Upper(name), 2)
  {
    WordsCount(name);
    FirstLettersOfWords(name);
  }

  /** The correction only matters when the first two characters contain a 'ß'. */
  lemma AsWrittenAgrees(name: string)
    requires forall i :: 0 <= i < |name| && i < 2 ==> name[i] != 'ß'
    ensures AbbreviationAsWritten(name) == Abbreviation(name)
  {
    if |name| > 2 {
      var head := Take(name, 2);
      assert name == head + name[2..];
      UpperAppend(head, name[2..]);
      assert |Upper(head)| == 2;
      assert Take(Upper(name), 2) == Upper(head);
    }
  }

  lemma ShortAndSpecialExamples()
    ensures Abbreviation("C#") == "C#"
    ensures Abbreviation("Kubernetes") == "K8"
    ensures Abbreviation("Next.js") == "NX"
  {
  }

  /** The short and special examples come out the same on the code as written. */
  lemma AsWrittenShortAndSpecial()
    ensures AbbreviationAsWritten("C#") == "C#"
    ensures AbbreviationAsWritten("Kubernetes") == "K8"
    ensures AbbreviationAsWritten("Next.js") == "NX"
  {
  }

  /** A multi-word name without 'ß' comes out the same on the code as written. */
  lemma AsWrittenMultiWord()
    ensures AbbreviationAsWritten("React.js") == "RJ"
  {
    MultiWordExample();
    AsWrittenAgrees("React.js");
  }

  /** A single word without 'ß' comes out the same on the code as written. */
  lemma AsWrittenSingleWord()
    ensures AbbreviationAsWritten("AWS") == "AW"
  {
    SingleWordExample();
    AsWrittenAgrees("AWS");
  }

  /** The initial of a separator-free leading word is its first character, and the next character starts no word. */
  lemma {:induction false} InitialsOfWord(w: string, rest: string, atStart: bool)
    requires w != [] && forall i :: 0 <= i < |w| ==> !IsSeparator(w[i])
    ensures Initials(w + rest, atStart) == (if atStart then [w[0]] else []) + Initials(rest, false)
    decreases |w|
  {
    assert (w + rest)[0] == w[0];
    assert (w + rest)[1..] == w[1..] + rest;
    if |w| > 1 {
      InitialsOfWord(w[1..], rest, false);
    } else {
      assert w[1..] + rest == rest;
    }
  }

  /** Two words joined by one separator have the two first characters as initials. */
  lemma InitialsOfTwoWords(w1: string, c: char, w2: string)
    requires w1 != [] && forall i :: 0 <= i < |w1| ==> !IsSeparator(w1[i])
    requires w2 != [] && forall i :: 0 <= i < |w2| ==> !IsSeparator(w2[i])
    requires IsSeparator(c)
    ensures Initials(w1 + ([c] + w2), true) == [w1[0], w2[0]]
  {
    InitialsOfWord(w1, [c] + w2, true);
    assert ([c] + w2)[0] == c;
    assert ([c] + w2)[1..] == w2;
    assert w2 == w2 + "";
    InitialsOfWord(w2, "", true);
  }

  lemma ReactInitials()
    ensures Initials("React.js", true) == "Rj"
  {
    assert "React.js" == "React" + (['.'] + "js");
    InitialsOfTwoWords("React", '.', "js");
  }

  lemma MultiWordExample()
    ensures Abbreviation("React.js") == "RJ"
  {
    var name := "React.js";
    ReactInitials();
    assert Upper("Rj") == "RJ" by {
      assert Upper("j") == "J";
    }
    assert name !in SpecialCodes;
    assert IsSeparator(name[5]);
    AbbreviationSpec(name);
  }

  lemma SingleWordExample()
    ensures Abbreviation("AWS") == "AW"
  {
    var name := "AWS";
    assert Upper(name) == name by {
      assert name[1..] == "WS";
      assert "WS"[1..] == "S";
      assert "S"[1..] == "";
    }
    assert !HasSeparator(name) by {
      assert !IsSeparator(name[0]) && !IsSeparator(name[1]) && !IsSeparator(name[2]);
    }
    assert name !in SpecialCodes;
    AbbreviationSpec(name);
  }

  /** Font size in pixels, from the block's pixel size. */
  function FontSizePx(size: int): (px: int)
    ensures px == 6 || px == 8 || px == 10
    ensures px == 6 <==> size <= 12
    ensures px == 10 <==> size > 16
  {
    if size <= 12 then 6 else if size <= 16 then 8 else 10
  }

  /** Corner radius in pixels, from the block's pixel size. */
  function CornerRadiusPx(size: int): (px: int)
    ensures 1 <= px <= 3
    ensures px == 1 <==> size <= 12
    ensures px == 3 <==> size > 16
  {
    if size <= 12 then 1
    else if size <= 16 then 2
    else 3
  }

  /** Both sizes grow with the block, and they switch at the same thresholds, 12/13 px
      and 16/17 px. */
  lemma SizesMonotone(a: int, b: int)
    requires a <= b
    ensures FontSizePx(a) <= FontSizePx(b)
    ensures CornerRadiusPx(a) <= CornerRadiusPx(b)
    ensures FontSizePx(a) == 2 * CornerRadiusPx(a) + 4
    ensures FontSizePx(12) == 6 && FontSizePx(13) == 8 && FontSizePx(16) == 8 && FontSizePx(17) == 10
    ensures CornerRadiusPx(12) == 1 && CornerRadiusPx(13) == 2 && CornerRadiusPx(16) == 2 && CornerRadiusPx(17) == 3
  {
  }
}
