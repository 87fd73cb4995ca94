/**
 * Character classes and the whitespace handling of Python strings that the
 * converter relies on: `str.isspace`, `str.strip()`, `str.split()` with no
 * argument, `' '.join(...)`, and slice reversal `s[::-1]`.
 *
 * Strings are `seq<char>` with `char` a Unicode scalar value, so `|s|` is
 * Python's `len(s)`.
 */
module Text {

  /** Python's `str.isspace()`: the characters `split()`, `strip()` and `\s` treat as whitespace. */
  predicate IsSpace(c: char) {
    || c == ' '
    || ('\t' <= c <= '\r')
    || ('\U{1C}' <= c <= '\U{1F}')
    || c == '\U{85}' || c == '\U{A0}' || c == '\U{1680}'
    || ('\U{2000}' <= c <= '\U{200A}')
    || c == '\U{2028}' || c == '\U{2029}' || c == '\U{202F}' || c == '\U{205F}' || c == '\U{3000}'
  }

  /** Decimal digits matched by `\d`: ASCII, Arabic-Indic and Extended Arabic-Indic (Persian) digits. */
  predicate IsDigit(c: char) {
    ('0' <= c <= '9') || ('\U{660}' <= c <= '\U{669}') || ('\U{6F0}' <= c <= '\U{6F9}')
  }

  /** One character of the regular-expression class `[\d۰-۹,:/\-\.]`. */
  predicate IsNumericChar(c: char) {
    IsDigit(c) || ('\U{6F0}' <= c <= '\U{6F9}') || c == ',' || c == ':' || c == '/' || c == '-' || c == '.'
  }

  /** A character of the Arabic block or of the two Arabic presentation-form blocks. */
  predicate IsArabicScript(c: char) {
    ('\U{600}' <= c <= '\U{6FF}') || ('\U{FB50}' <= c <= '\U{FDFF}') || ('\U{FE70}' <= c <= '\U{FEFF}')
  }

  /** `^[\d۰-۹,:/\-\.]+$`: a number or a date, without whitespace. */
  predicate IsNumericToken(s: string) {
    |s| > 0 && forall i :: 0 <= i < |s| ==> IsNumericChar(s[i])
  }

  /** `^[\d۰-۹,:/\-\.\s]+$`: numbers, dates and whitespace only. */
  predicate IsNumericText(s: string) {
    |s| > 0 && forall i :: 0 <= i < |s| ==> IsNumericChar(s[i]) || IsSpace(s[i])
  }

  /** The number of Arabic-script characters in `s`. */
  function ArabicScriptCount(s: string): (n: nat)
    ensures n <= |s|
    ensures n > 0 <==> exists i :: 0 <= i < |s| && IsArabicScript(s[i])
  {
    if s == [] then 0
    else
      var n := (if IsArabicScript(s[0]) then 1 else 0) + ArabicScriptCount(s[1..]);
      assert forall i :: 0 < i < |s| ==> s[i] == s[1..][i - 1];
      n
  }

  /** `s[::-1]` and `reversed(s)`. */
  function Reversed<T>(s: seq<T>): (r: seq<T>)
    ensures |r| == |s|
    ensures forall i :: 0 <= i < |s| ==> r[i] == s[|s| - 1 - i]
  {
    seq(|s|, i requires 0 <= i < |s| => s[|s| - 1 - i])
  }

  /** Reversing a non-empty sequence puts its first element last. */
  lemma ReversedCons<T>(s: seq<T>)
    requires s != []
    ensures Reversed(s) == Reversed(s[1..]) + [s[0]]
  {
    var r, t := Reversed(s), Reversed(s[1..]) + [s[0]];
    forall i | 0 <= i < |s| ensures r[i] == t[i] {
      if i < |s| - 1 {
        assert t[i] == s[1..][|s| - 2 - i];
      }
    }
  }

  lemma ReversedReversed<T>(s: seq<T>)
    ensures Reversed(Reversed(s)) == s
  {
    assert forall i :: 0 <= i < |s| ==> Reversed(Reversed(s))[i] == s[i];
  }

  lemma {:induction false} ReversedMultiset<T>(s: seq<T>)
    ensures multiset(Reversed(s)) == multiset(s)
  {
    if s != [] {
      ReversedMultiset(s[1..]);
      ReversedCons(s);
      assert s == [s[0]] + s[1..];
    }
  }

  /** `s.lstrip()`. */
  function TrimStart(s: string): (r: string)
    ensures |r| <= |s| && r == s[|s| - |r|..]
    ensures r == [] || !IsSpace(r[0])
    ensures forall i :: 0 <= i < |s| - |r| ==> IsSpace(s[i])
  {
    if s != [] && IsSpace(s[0]) then TrimStart(s[1..]) else s
  }

  /** `s.rstrip()`. */
  function TrimEnd(s: string): (r: string)
    ensures |r| <= |s| && r == s[..|r|]
    ensures r == [] || !IsSpace(r[|r| - 1])
    ensures forall i :: |r| <= i < |s| ==> IsSpace(s[i])
  {
    if s != [] && IsSpace(s[|s| - 1]) then TrimEnd(s[..|s| - 1]) else s
  }

  /** `s.strip()`: whitespace removed from both ends. */
  function Strip(s: string): (r: string)
    ensures |r| <= |s|
    ensures r == [] || (!IsSpace(r[0]) && !IsSpace(r[|r| - 1]))
  {
    var t := TrimStart(s);
    var r := TrimEnd(t);
    assert r != [] ==> r[0] == t[0];
    r
  }

  /**
   * `strip()` removes whitespace at the ends and nowhere else: its result
   * `r` is the slice of `s` that starts where the leading whitespace (what
   * `lstrip()` removes, leaving `t`) ends, and all that follows `r` in `s`
   * is whitespace too.
   */
  lemma StripCutsOnlyEnds(s: string, t: string, r: string)
    requires t == TrimStart(s) && r == Strip(s)
    ensures |s| - |t| + |r| <= |s|
    ensures r == s[|s| - |t|..|s| - |t| + |r|]
    ensures forall j :: 0 <= j < |s| - |t| ==> IsSpace(s[j])
    ensures forall j :: |s| - |t| + |r| <= j < |s| ==> IsSpace(s[j])
  {
    TrimmedBothEnds(s, t, r);
    PrefixOfSuffix(s, t, r);
  }

  /** The facts about `lstrip` and `rstrip` that `strip` is made of. */
  lemma TrimmedBothEnds(s: string, t: string, r: string)
    requires t == TrimStart(s) && r == Strip(s)
    ensures |t| <= |s| && t == s[|s| - |t|..]
    ensures forall j :: 0 <= j < |s| - |t| ==> IsSpace(s[j])
    ensures |r| <= |t| && r == t[..|r|]
    ensures forall j :: |r| <= j < |t| ==> IsSpace(t[j])
  {
    assert r == TrimEnd(t);
  }

  /**
   * A prefix `r` of a suffix `t` of `s`, with whitespace only around it, is
   * a slice of `s` with whitespace only around it.
   */
  lemma PrefixOfSuffix(s: string, t: string, r: string)
    requires |t| <= |s| && t == s[|s| - |t|..]
    requires forall j :: 0 <= j < |s| - |t| ==> IsSpace(s[j])
    requires |r| <= |t| && r == t[..|r|]
    requires forall j :: |r| <= j < |t| ==> IsSpace(t[j])
    ensures |s| - |t| + |r| <= |s|
    ensures r == s[|s| - |t|..|s| - |t| + |r|]
    ensures forall j :: 0 <= j < |s| - |t| ==> IsSpace(s[j])
    ensures forall j :: |s| - |t| + |r| <= j < |s| ==> IsSpace(s[j])
  {
    var i := |s| - |t|;
    forall j | i + |r| <= j < |s| ensures IsSpace(s[j]) {
      assert s[j] == t[j - i];
    }
  }

  /** A token produced by `str.split()`: non-empty and free of whitespace. */
  predicate IsWord(w: string) {
    |w| > 0 && forall i :: 0 <= i < |w| ==> !IsSpace(w[i])
  }

  predicate AllWords(ws: seq<string>) {
    forall k :: 0 <= k < |ws| ==> IsWord(ws[k])
  }

  /** The length of the run of non-whitespace characters that starts `s`. */
  function WordLength(s: string): (n: nat)
    ensures n <= |s|
    ensures forall i :: 0 <= i < n ==> !IsSpace(s[i])
    ensures n < |s| ==> IsSpace(s[n])
  {
    if s == [] || IsSpace(s[0]) then 0 else 1 + WordLength(s[1..])
  }

  /** `s.split()`: the maximal runs of non-whitespace characters, in order. */
  function Words(s: string): (ws: seq<string>)
    ensures AllWords(ws)
    decreases |s|
  {
    if s == [] then []
    else if IsSpace(s[0]) then Words(s[1..])
    else
      var n := WordLength(s);
      [s[..n]] + Words(s[n..])
  }

  /** `' '.join(ws)`. */
  function Join(ws: seq<string>): string
  {
    if |ws| == 0 then ""
    else if |ws| == 1 then ws[0]
    else ws[0] + " " + Join(ws[1..])
  }

  /** Text with no leading, trailing or repeated whitespace, and no whitespace other than ' '. */
  predicate IsCollapsed(s: string) {
    Join(Words(s)) == s
  }

  /** The concatenation of `ws`. */
  function Flatten(ws: seq<string>): string
  {
    if ws == [] then "" else ws[0] + Flatten(ws[1..])
  }

  /** The non-whitespace characters of `s`, in order. */
  function NonSpaces(s: string): (r: string)
    ensures forall c :: c in r <==> c in s && !IsSpace(c)
  {
    if s == [] then ""
    else
      var rest := NonSpaces(s[1..]);
      assert forall c :: c in s <==> c == s[0] || c in s[1..];
      if IsSpace(s[0]) then rest else [s[0]] + rest
  }

  lemma {:induction false} WordLengthOfWord(w: string, rest: string)
    requires IsWord(w)
    requires rest == [] || IsSpace(rest[0])
    ensures WordLength(w + rest) == |w|
    decreases |w|
  {
    if |w| > 1 {
      assert (w + rest)[1..] == w[1..] + rest;
      WordLengthOfWord(w[1..], rest);
    } else {
      assert (w + rest)[1..] == rest;
    }
  }

  /** A word followed by whitespace (or by nothing) is split off as the first token. */
  lemma WordsOfWordThen(w: string, rest: string)
    requires IsWord(w)
    requires rest == [] || IsSpace(rest[0])
    ensures Words(w + rest) == [w] + Words(rest)
  {
    WordLengthOfWord(w, rest);
    var s := w + rest;
    assert s[..|w|] == w;
    assert s[|w|..] == rest;
  }

  /** Splitting what was joined gives back the tokens: `' '.join(ws).split() == ws`. */
  lemma {:induction false} WordsOfJoin(ws: seq<string>)
    requires AllWords(ws)
    ensures Words(Join(ws)) == ws
  {
    if |ws| == 0 {
    } else if |ws| == 1 {
      WordsOfWordThen(ws[0], "");
      assert ws[0] + "" == ws[0];
    } else {
      var tail := Join(ws[1..]);
      WordsOfJoin(ws[1..]);
      assert ws[0] + " " + tail == ws[0] + (" " + tail);
      WordsOfWordThen(ws[0], " " + tail);
      assert (" " + tail)[1..] == tail;
    }
  }

  /** Joining words gives collapsed text, the shape every cleaned cell has. */
  lemma JoinIsCollapsed(ws: seq<string>)
    requires AllWords(ws)
    ensures IsCollapsed(Join(ws))
  {
    WordsOfJoin(ws);
  }

  /** Joining words gives the empty string exactly when there are no words. */
  lemma {:induction false} JoinEmpty(ws: seq<string>)
    requires AllWords(ws)
    ensures Join(ws) == "" <==> ws == []
  {
    if |ws| > 1 {
      assert |Join(ws)| >= |ws[0]| > 0;
    }
  }

  /** `split()` finds no token exactly when the text is whitespace only. */
  lemma {:induction false} WordsEmpty(s: string)
    ensures Words(s) == [] <==> forall i :: 0 <= i < |s| ==> IsSpace(s[i])
    decreases |s|
  {
    if s != [] && IsSpace(s[0]) {
      WordsEmpty(s[1..]);
      assert forall i :: 0 < i < |s| ==> s[i] == s[1..][i - 1];
    }
  }

  /** Whitespace at the end of the text does not change its tokens. */
  lemma {:induction false} WordsIgnoresTrailingSpace(s: string, c: char)
    requires IsSpace(c)
    ensures Words(s + [c]) == Words(s)
    decreases |s|
  {
    var t := s + [c];
    if s == [] {
      assert t[1..] == [];
    } else if IsSpace(s[0]) {
      assert t[1..] == s[1..] + [c];
      WordsIgnoresTrailingSpace(s[1..], c);
    } else {
      var n := WordLength(s);
      if n < |s| {
        WordLengthOfWord(s[..n], s[n..] + [c]);
        WordLengthOfWord(s[..n], s[n..]);
        assert s[..n] + s[n..] == s;
        assert s[..n] + (s[n..] + [c]) == t;
      } else {
        WordLengthOfWord(s, [c]);
        assert s[..n] == s;
      }
      assert t[..n] == s[..n];
      assert t[n..] == s[n..] + [c];
      WordsIgnoresTrailingSpace(s[n..], c);
    }
  }

  lemma {:induction false} WordsIgnoresTrimEnd(s: string)
    ensures Words(TrimEnd(s)) == Words(s)
    decreases |s|
  {
    if s != [] && IsSpace(s[|s| - 1]) {
      var p := s[..|s| - 1];
      WordsIgnoresTrimEnd(p);
      WordsIgnoresTrailingSpace(p, s[|s| - 1]);
      assert p + [s[|s| - 1]] == s;
    }
  }

  lemma {:induction false} WordsIgnoresTrimStart(s: string)
    ensures Words(TrimStart(s)) == Words(s)
    decreases |s|
  {
    if s != [] && IsSpace(s[0]) {
      WordsIgnoresTrimStart(s[1..]);
    }
  }

  /** Stripping before splitting changes nothing: `s.strip().split() == s.split()`. */
  lemma WordsOfStrip(s: string)
    ensures Words(Strip(s)) == Words(s)
  {
    WordsIgnoresTrimEnd(TrimStart(s));
    WordsIgnoresTrimStart(s);
  }

  /** Stripping removes whitespace only: every other character stays, in order. */
  lemma StripKeepsNonSpaces(s: string)
    ensures NonSpaces(Strip(s)) == NonSpaces(s)
  {
    WordsOfStrip(s);
    FlattenWords(s);
    FlattenWords(Strip(s));
  }

  lemma {:induction false} FlattenAppend(a: seq<string>, b: seq<string>)
    ensures Flatten(a + b) == Flatten(a) + Flatten(b)
  {
    if a == [] {
      assert a + b == b;
    } else {
      assert (a + b)[0] == a[0];
      assert (a + b)[1..] == a[1..] + b;
      FlattenAppend(a[1..], b);
      assert Flatten(a + b) == a[0] + (Flatten(a[1..]) + Flatten(b));
    }
  }

  lemma {:induction false} NonSpacesAppend(a: string, b: string)
    ensures NonSpaces(a + b) == NonSpaces(a) + NonSpaces(b)
  {
    if a == [] {
      assert a + b == b;
    } else {
      assert (a + b)[0] == a[0];
      assert (a + b)[1..] == a[1..] + b;
      NonSpacesAppend(a[1..], b);
    }
  }

  lemma {:induction false} NonSpacesOfWord(w: string)
    requires forall i :: 0 <= i < |w| ==> !IsSpace(w[i])
    ensures NonSpaces(w) == w
  {
    if w != [] {
      NonSpacesOfWord(w[1..]);
    }
  }

  /** The tokens of `s`, put together, are exactly its non-whitespace characters. */
  lemma {:induction false} FlattenWords(s: string)
    ensures Flatten(Words(s)) == NonSpaces(s)
    decreases |s|
  {
    if s == [] {
    } else if IsSpace(s[0]) {
      FlattenWords(s[1..]);
    } else {
      var n := WordLength(s);
      FlattenWords(s[n..]);
      assert s == s[..n] + s[n..];
      NonSpacesAppend(s[..n], s[n..]);
      NonSpacesOfWord(s[..n]);
    }
  }

  /** Joining with single spaces adds only whitespace. */
  lemma {:induction false} NonSpacesOfJoin(ws: seq<string>)
    requires AllWords(ws)
    ensures NonSpaces(Join(ws)) == Flatten(ws)
  {
    if |ws| == 1 {
      NonSpacesOfWord(ws[0]);
      assert Flatten(ws) == ws[0] + Flatten([]);
    } else if |ws| > 1 {
      NonSpacesOfJoin(ws[1..]);
      NonSpacesOfSpaced(ws[0], Join(ws[1..]));
    }
  }

  /** A word, a space and more text: the word's characters, then those of the rest. */
  lemma NonSpacesOfSpaced(w: string, rest: string)
    requires forall i :: 0 <= i < |w| ==> !IsSpace(w[i])
    ensures NonSpaces(w + " " + rest) == w + NonSpaces(rest)
  {
    NonSpacesOfWord(w);
    NonSpacesAppend(w, " " + rest);
    NonSpacesAppend(" ", rest);
    assert w + " " + rest == w + (" " + rest);
  }

  /** Reordering tokens keeps the characters they hold. */
  lemma {:induction false} FlattenReversedMultiset(ws: seq<string>)
    ensures multiset(Flatten(Reversed(ws))) == multiset(Flatten(ws))
  {
    if ws != [] {
      FlattenReversedMultiset(ws[1..]);
      ReversedCons(ws);
      FlattenAppend(Reversed(ws[1..]), [ws[0]]);
      assert Flatten([ws[0]]) == ws[0];
    }
  }
}
