/** Title casing of the incident status, as done by `convert_case` with
    `Case::Title` (src/main.rs, line 83): the text is split into words at
    `_`, `-` and spaces, empty words are dropped, each word gets an
    upper-case first letter and a lower-case remainder, and the words are
    joined with single spaces. Letters are ASCII. */
module Casing {

  predicate IsDelimiter(c: char) {
    c == '_' || c == '-' || c == ' '
  }

  predicate IsUpper(c: char) { 'A' <= c <= 'Z' }
  predicate IsLower(c: char) { 'a' <= c <= 'z' }

  function ToUpper(c: char): (u: char)
    ensures IsLower(c) ==> IsUpper(u) && u as int == c as int - 32
    ensures !IsLower(c) ==> u == c
  {
    if IsLower(c) then (c as int - 32) as char else c
  }

  function ToLower(c: char): (l: char)
    ensures IsUpper(c) ==> IsLower(l) && l as int == c as int + 32
    ensures !IsUpper(c) ==> l == c
  {
    if IsUpper(c) then (c as int + 32) as char else c
  }

  function Lowered(s: string): string {
    seq(|s|, i requires 0 <= i < |s| => ToLower(s[i]))
  }

  /** Upper-case first letter, lower-case remainder. */
  function Capitalize(w: string): (r: string)
    ensures |r| == |w|
  {
    if w == [] then [] else [ToUpper(w[0])] + Lowered(w[1..])
  }

  /** A capitalized word keeps its length; its first letter is not lower
      case and no later letter is upper case. */
  lemma CapitalizeAt(w: string)
    ensures |Capitalize(w)| == |w|
    ensures w != [] ==> Capitalize(w)[0] == ToUpper(w[0]) && !IsLower(Capitalize(w)[0])
    ensures forall i :: 1 <= i < |w| ==> Capitalize(w)[i] == ToLower(w[i]) && !IsUpper(Capitalize(w)[i])
  {
    if w != [] {
      var c := Capitalize(w);
      var low := Lowered(w[1..]);
      assert c == [ToUpper(w[0])] + low;
      forall i | 1 <= i < |w| ensures c[i] == ToLower(w[i]) && !IsUpper(c[i]) {
        assert c[i] == low[i - 1];
        assert w[1..][i - 1] == w[i];
      }
    }
  }

  predicate NoDelimiter(w: string) {
    forall i :: 0 <= i < |w| ==> !IsDelimiter(w[i])
  }

  /** Length of the longest prefix of `s` that holds no delimiter. */
  function WordLength(s: string): (n: nat)
    ensures n <= |s|
    ensures NoDelimiter(s[..n])
    ensures n < |s| ==> IsDelimiter(s[n])
  {
    if s == [] || IsDelimiter(s[0]) then 0 else 1 + WordLength(s[1..])
  }

  /** The non-empty words of `s`, in order. */
  function SplitWords(s: string): (ws: seq<string>)
    ensures forall k :: 0 <= k < |ws| ==> ws[k] != [] && NoDelimiter(ws[k])
    decreases |s|
  {
    if s == [] then []
    else if IsDelimiter(s[0]) then SplitWords(s[1..])
    else
      var n := WordLength(s);
      [s[..n]] + SplitWords(s[n..])
  }

  function CapitalizeAll(ws: seq<string>): (cs: seq<string>)
    ensures |cs| == |ws|
    ensures forall k :: 0 <= k < |ws| ==> cs[k] == Capitalize(ws[k])
  {
    if ws == [] then [] else [Capitalize(ws[0])] + CapitalizeAll(ws[1..])
  }

  function JoinWithSpaces(ws: seq<string>): string {
    if ws == [] then ""
    else if |ws| == 1 then ws[0]
    else ws[0] + " " + JoinWithSpaces(ws[1..])
  }

  function TitleCase(s: string): string {
    JoinWithSpaces(CapitalizeAll(SplitWords(s)))
  }

  // ---------------------------------------------------------------------
  // Properties

  /** Capitalizing keeps a word free of delimiters. */
  lemma CapitalizeNoDelimiter(w: string)
    requires NoDelimiter(w)
    ensures NoDelimiter(Capitalize(w))
  {
    var c := Capitalize(w);
    CapitalizeAt(w);
    forall i | 0 <= i < |c| ensures !IsDelimiter(c[i]) {
      assert !IsDelimiter(w[i]);
    }
  }

  /** Every character of a joined text is a character of one of the words
      or the separating space. */
  lemma {:induction false} JoinChars(ws: seq<string>, i: nat)
    requires i < |JoinWithSpaces(ws)|
    ensures JoinWithSpaces(ws)[i] == ' '
         || exists k, j :: 0 <= k < |ws| && 0 <= j < |ws[k]| && JoinWithSpaces(ws)[i] == ws[k][j]
  {
    var r := JoinWithSpaces(ws);
    if |ws| == 1 {
      assert r[i] == ws[0][i];
    } else {
      assert |ws| > 1;
      var head := ws[0] + " ";
      assert r == head + JoinWithSpaces(ws[1..]);
      if i < |ws[0]| {
        assert r[i] == ws[0][i];
      } else if i == |ws[0]| {
        assert r[i] == ' ';
      } else {
        var i' := i - |head|;
        assert r[i] == JoinWithSpaces(ws[1..])[i'];
        JoinChars(ws[1..], i');
        if JoinWithSpaces(ws[1..])[i'] != ' ' {
          var k, j :| 0 <= k < |ws[1..]| && 0 <= j < |ws[1..][k]|
                      && JoinWithSpaces(ws[1..])[i'] == ws[1..][k][j];
          assert ws[1..][k] == ws[k + 1];
        }
      }
    }
  }

  /** A title-cased status contains no `_` and no `-`: every delimiter
      has become a single space. */
  lemma TitleCaseHasNoUnderscoreOrHyphen(s: string)
    ensures forall i :: 0 <= i < |TitleCase(s)| ==> TitleCase(s)[i] != '_' && TitleCase(s)[i] != '-'
  {
    var ws := SplitWords(s);
    var cs := CapitalizeAll(ws);
    forall i | 0 <= i < |TitleCase(s)|
      ensures TitleCase(s)[i] != '_' && TitleCase(s)[i] != '-'
    {
      JoinChars(cs, i);
      if TitleCase(s)[i] != ' ' {
        var k, j :| 0 <= k < |cs| && 0 <= j < |cs[k]| && TitleCase(s)[i] == cs[k][j];
        CapitalizeNoDelimiter(ws[k]);
        assert !IsDelimiter(cs[k][j]);
      }
    }
  }

  /** Title casing never makes the status longer: delimiters collapse into
      at most one space between words. */
  lemma {:induction false} TitleCaseLength(s: string)
    ensures |TitleCase(s)| <= |s|
    decreases |s|
  {
    if s == [] {
    } else if IsDelimiter(s[0]) {
      TitleCaseLength(s[1..]);
    } else {
      var n := WordLength(s);
      var rest := s[n..];
      assert SplitWords(s) == [s[..n]] + SplitWords(rest);
      assert CapitalizeAll(SplitWords(s)) == [Capitalize(s[..n])] + CapitalizeAll(SplitWords(rest));
      CapitalizeAt(s[..n]);
      if SplitWords(rest) == [] {
        assert TitleCase(s) == Capitalize(s[..n]);
      } else {
        assert n < |s|;
        assert IsDelimiter(rest[0]);
        assert SplitWords(rest) == SplitWords(rest[1..]);
        TitleCaseLength(rest[1..]);
        var cs := CapitalizeAll(SplitWords(s));
        assert cs[1..] == CapitalizeAll(SplitWords(rest[1..]));
        assert TitleCase(s) == Capitalize(s[..n]) + " " + TitleCase(rest[1..]);
      }
    }
  }

  /** A single word without delimiters is capitalized and nothing else. */
  lemma SingleWordTitleCase(w: string)
    requires w != [] && NoDelimiter(w)
    ensures TitleCase(w) == Capitalize(w)
  {
    assert WordLength(w) == |w| by {
      WordLengthOfWord(w);
    }
    assert w[|w|..] == [];
    assert w[..|w|] == w;
    assert SplitWords(w) == [w];
  }

  lemma {:induction false} WordLengthOfWord(w: string)
    requires NoDelimiter(w)
    ensures WordLength(w) == |w|
  {
    if w != [] {
      assert NoDelimiter(w[1..]) by {
        forall i | 0 <= i < |w[1..]| ensures !IsDelimiter(w[1..][i]) {
          assert w[1..][i] == w[i + 1];
        }
      }
      WordLengthOfWord(w[1..]);
    }
  }

  // ---------------------------------------------------------------------
  // What the words are

  /** `s` with every delimiter removed. */
  function Letters(s: string): string {
    if s == [] then []
    else (if IsDelimiter(s[0]) then [] else [s[0]]) + Letters(s[1..])
  }

  function Concat(ws: seq<string>): string {
    if ws == [] then [] else ws[0] + Concat(ws[1..])
  }

  lemma {:induction false} LettersAppend(a: string, b: string)
    ensures Letters(a + b) == Letters(a) + Letters(b)
  {
    if a != [] {
      assert (a + b)[1..] == a[1..] + b;
      LettersAppend(a[1..], b);
    } else {
      assert a + b == b;
    }
  }

  lemma {:induction false} LettersOfWord(w: string)
    requires NoDelimiter(w)
    ensures Letters(w) == w
  {
    if w != [] {
      assert NoDelimiter(w[1..]) by {
        forall i | 0 <= i < |w[1..]| ensures !IsDelimiter(w[1..][i]) {
          assert w[1..][i] == w[i + 1];
        }
      }
      LettersOfWord(w[1..]);
    }
  }

  /** Splitting loses and invents no letter: the words, put back together,
      are the status without its delimiters. */
  lemma {:induction false} SplitWordsKeepsLetters(s: string)
    ensures Concat(SplitWords(s)) == Letters(s)
    decreases |s|
  {
    if s == [] {
    } else if IsDelimiter(s[0]) {
      SplitWordsKeepsLetters(s[1..]);
    } else {
      var n := WordLength(s);
      SplitWordsKeepsLetters(s[n..]);
      assert s == s[..n] + s[n..];
      LettersAppend(s[..n], s[n..]);
      LettersOfWord(s[..n]);
      assert SplitWords(s) == [s[..n]] + SplitWords(s[n..]);
      assert Concat(SplitWords(s)) == s[..n] + Concat(SplitWords(s[n..]));
    }
  }

  /** Leading delimiters produce no word. */
  lemma SplitWordsSkipsDelimiter(c: char, s: string)
    requires IsDelimiter(c)
    ensures SplitWords([c] + s) == SplitWords(s)
  {
    assert ([c] + s)[1..] == s;
  }

  /** A word that runs to the end of the status is its only word. */
  lemma SplitWordsOfWord(w: string)
    requires w != [] && NoDelimiter(w)
    ensures SplitWords(w) == [w]
  {
    WordLengthOfWord(w);
    assert w[|w|..] == [];
    assert w[..|w|] == w;
  }

  lemma {:induction false} WordLengthBeforeDelimiter(w: string, rest: string)
    requires NoDelimiter(w) && rest != [] && IsDelimiter(rest[0])
    ensures WordLength(w + rest) == |w|
  {
    if w == [] {
      assert w + rest == rest;
    } else {
      assert (w + rest)[1..] == w[1..] + rest;
      assert NoDelimiter(w[1..]) by {
        forall i | 0 <= i < |w[1..]| ensures !IsDelimiter(w[1..][i]) {
          assert w[1..][i] == w[i + 1];
        }
      }
      WordLengthBeforeDelimiter(w[1..], rest);
    }
  }

  /** A word followed by a delimiter is the first word, and the words of
      what follows the delimiter come after it. With the two lemmas above,
      this fixes the words of every status: they are its maximal runs
      without delimiters, in order. */
  lemma SplitWordsAtDelimiter(w: string, rest: string)
    requires w != [] && NoDelimiter(w) && rest != [] && IsDelimiter(rest[0])
    ensures SplitWords(w + rest) == [w] + SplitWords(rest[1..])
  {
    WordLengthBeforeDelimiter(w, rest);
    var s := w + rest;
    assert s[..|w|] == w;
    assert s[|w|..] == rest;
    assert rest == [rest[0]] + rest[1..];
    SplitWordsSkipsDelimiter(rest[0], rest[1..]);
  }

  /** Two words joined by any delimiter are title-cased and joined by a
      space. */
  lemma TitleCaseOfTwoWords(a: string, d: char, b: string)
    requires a != [] && NoDelimiter(a) && b != [] && NoDelimiter(b) && IsDelimiter(d)
    ensures TitleCase(a + [d] + b) == Capitalize(a) + " " + Capitalize(b)
  {
    assert a + [d] + b == a + ([d] + b);
    assert ([d] + b)[1..] == b;
    SplitWordsAtDelimiter(a, [d] + b);
    SplitWordsOfWord(b);
    var ws := SplitWords(a + [d] + b);
    assert ws == [a, b];
    var cs := CapitalizeAll(ws);
    assert cs == [Capitalize(a), Capitalize(b)];
    assert cs[1..] == [Capitalize(b)];
    assert JoinWithSpaces(cs) == cs[0] + " " + JoinWithSpaces(cs[1..]);
  }

  /** A leading word ended by a delimiter is capitalized and joined by one
      space to the title-cased rest, when the rest holds a word at all. */
  lemma TitleCaseAtDelimiter(w: string, rest: string)
    requires w != [] && NoDelimiter(w) && rest != [] && IsDelimiter(rest[0])
    requires SplitWords(rest[1..]) != []
    ensures TitleCase(w + rest) == Capitalize(w) + " " + TitleCase(rest[1..])
  {
    SplitWordsAtDelimiter(w, rest);
    var ws := SplitWords(w + rest);
    var cs := CapitalizeAll(ws);
    assert ws[1..] == SplitWords(rest[1..]);
    assert cs[1..] == CapitalizeAll(SplitWords(rest[1..]));
    assert |cs| >= 2;
    assert JoinWithSpaces(cs) == cs[0] + " " + JoinWithSpaces(cs[1..]);
  }

  /** A lower-case word is capitalized by upper-casing its first letter. */
  lemma CapitalizeLowerCaseWord(w: string)
    requires w != [] && forall i :: 0 <= i < |w| ==> !IsUpper(w[i])
    ensures Capitalize(w) == [ToUpper(w[0])] + w[1..]
  {
    assert Lowered(w[1..]) == w[1..];
  }

  /** A lower-case status of one word only gets its first letter
      upper-cased. */
  lemma TitleCaseOfLowerCaseWord(w: string)
    requires w != [] && NoDelimiter(w)
    requires forall i :: 0 <= i < |w| ==> !IsUpper(w[i])
    ensures TitleCase(w) == [ToUpper(w[0])] + w[1..]
  {
    SingleWordTitleCase(w);
    CapitalizeLowerCaseWord(w);
  }

  /** `"investigating"` becomes `"Investigating"`. */
  lemma TitleCaseExample(status: string)
    requires status == "investigating"
    ensures TitleCase(status) == "Investigating"
  {
    TitleCaseOfLowerCaseWord(status);
  }

  /** `"in_progress"` becomes `"In Progress"`. */
  lemma TitleCaseTwoWordExample(status: string)
    requires status == "in_progress"
    ensures TitleCase(status) == "In Progress"
  {
    var a, b := "in", "progress";
    assert status == a + ['_'] + b;
    TitleCaseOfTwoWords(a, '_', b);
    CapitalizeLowerCaseWord(a);
    CapitalizeLowerCaseWord(b);
  }
}
