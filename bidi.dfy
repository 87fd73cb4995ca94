/**
 * The bidirectional-text heuristic `fix_persian_text`: text extracted from a
 * PDF holds right-to-left words in visual order, so every word that is not a
 * number or a date has its characters reversed and the order of the words is
 * reversed as well, while numbers and dates keep their left-to-right order.
 */
module Bidi {
  import opened Text

  /** One token of the output: a number or date is kept, any other token is reversed. */
  function FixToken(t: string): (r: string)
    ensures |r| == |t|
    ensures IsWord(t) ==> IsWord(r)
  {
    if IsNumericToken(t) then t else Reversed(t)
  }

  /** Reversing a token keeps its characters, and so whether it is a number or a date. */
  lemma FixTokenKeepsCharacters(t: string)
    ensures multiset(FixToken(t)) == multiset(t)
    ensures IsNumericToken(FixToken(t)) <==> IsNumericToken(t)
  {
    if !IsNumericToken(t) {
      ReversedMultiset(t);
      var r := Reversed(t);
      if t != [] {
        var i :| 0 <= i < |t| && !IsNumericChar(t[i]);
        assert r[|t| - 1 - i] == t[i];
      }
    }
  }

  /** Fixing a token twice gives it back. */
  lemma FixTokenTwice(t: string)
    ensures FixToken(FixToken(t)) == t
  {
    FixTokenKeepsCharacters(t);
    if !IsNumericToken(t) {
      ReversedReversed(t);
    }
  }

  /** The per-token loop: `FixToken` applied to every token, in order. */
  function FixTokens(ws: seq<string>): (rs: seq<string>)
    ensures |rs| == |ws|
    ensures forall i :: 0 <= i < |ws| ==> rs[i] == FixToken(ws[i])
  {
    seq(|ws|, i requires 0 <= i < |ws| => FixToken(ws[i]))
  }

  /** Text that `FixPersianText` rearranges: non-empty, not only numbers and dates, with Arabic script in it. */
  predicate Reorders(text: string) {
    text != [] && !IsNumericText(text) && ArabicScriptCount(text) > 0
  }

  /**
   * `fix_persian_text`: empty text, text made only of numbers, dates and
   * whitespace, and text without any Arabic-script character come back
   * unchanged; otherwise the whitespace-separated tokens are fixed one by one
   * and joined, last token first, with single spaces.
   */
  function FixPersianText(text: string): (r: string)
    ensures text == [] || IsNumericText(text) || (forall i :: 0 <= i < |text| ==> !IsArabicScript(text[i]))
            ==> r == text
    ensures r == [] <==> text == []
  {
    if text == [] then text
    else if IsNumericText(text) then text
    else if ArabicScriptCount(text) > 0 then
      var ws := Words(text);
      WordsEmpty(text);
      JoinEmpty(Reversed(FixTokens(ws)));
      Join(Reversed(FixTokens(ws)))
    else text
  }

  /**
   * When the text is rearranged, output token i is input token n-1-i, kept if
   * it is a number or date and reversed otherwise; the tokens are joined by
   * single spaces, so their number and their lengths are preserved.
   */
  lemma FixPersianTextTokens(text: string)
    requires Reorders(text)
    ensures var ws, out := Words(text), Words(FixPersianText(text));
            && FixPersianText(text) == Join(out)
            && |out| == |ws|
            && forall i :: 0 <= i < |out| ==>
                 && |out[i]| == |ws[|ws| - 1 - i]|
                 && (IsNumericToken(ws[|ws| - 1 - i]) ==> out[i] == ws[|ws| - 1 - i])
                 && (!IsNumericToken(ws[|ws| - 1 - i]) ==> out[i] == Reversed(ws[|ws| - 1 - i]))
  {
    RearrangedWords(text);
    FixedTokensReversed(Words(text), Words(FixPersianText(text)));
  }

  /** Token i of the fixed tokens in reverse order is input token n-1-i, fixed. */
  lemma FixedTokensReversed(ws: seq<string>, out: seq<string>)
    requires out == Reversed(FixTokens(ws))
    ensures |out| == |ws|
    ensures forall i :: 0 <= i < |out| ==>
              && |out[i]| == |ws[|ws| - 1 - i]|
              && (IsNumericToken(ws[|ws| - 1 - i]) ==> out[i] == ws[|ws| - 1 - i])
              && (!IsNumericToken(ws[|ws| - 1 - i]) ==> out[i] == Reversed(ws[|ws| - 1 - i]))
  {
    var n := |ws|;
    forall i | 0 <= i < |out|
      ensures |out[i]| == |ws[n - 1 - i]|
      ensures IsNumericToken(ws[n - 1 - i]) ==> out[i] == ws[n - 1 - i]
      ensures !IsNumericToken(ws[n - 1 - i]) ==> out[i] == Reversed(ws[n - 1 - i])
    {
      assert out[i] == FixTokens(ws)[n - 1 - i];
      assert out[i] == FixToken(ws[n - 1 - i]);
    }
  }

  /** The tokens of a rearranged text are the fixed input tokens, last first. */
  lemma RearrangedWords(text: string)
    requires Reorders(text)
    ensures FixPersianText(text) == Join(Reversed(FixTokens(Words(text))))
    ensures Words(FixPersianText(text)) == Reversed(FixTokens(Words(text)))
  {
    var rs := Reversed(FixTokens(Words(text)));
    assert FixPersianText(text) == Join(rs);
    assert AllWords(rs);
    WordsOfJoin(rs);
  }

  lemma {:induction false} FlattenFixTokens(ws: seq<string>)
    ensures multiset(Flatten(FixTokens(ws))) == multiset(Flatten(ws))
  {
    if ws != [] {
      FlattenFixTokens(ws[1..]);
      FixTokenKeepsCharacters(ws[0]);
      assert FixTokens(ws) == [FixToken(ws[0])] + FixTokens(ws[1..]);
    }
  }

  /** The function only rearranges characters: it keeps every non-whitespace character, with its multiplicity. */
  lemma FixPersianTextKeepsCharacters(text: string)
    ensures multiset(NonSpaces(FixPersianText(text))) == multiset(NonSpaces(text))
  {
    if Reorders(text) {
      var ws := Words(text);
      var fs := FixTokens(ws);
      assert AllWords(Reversed(fs));
      NonSpacesOfJoin(Reversed(fs));
      FlattenReversedMultiset(fs);
      FlattenFixTokens(ws);
      FlattenWords(text);
    }
  }

  /** Text with the same non-whitespace characters as a rearranged text is rearranged too. */
  lemma ReordersWithSameCharacters(text: string, r: string)
    requires Reorders(text)
    requires multiset(NonSpaces(r)) == multiset(NonSpaces(text))
    ensures Reorders(r)
  {
    var i :| 0 <= i < |text| && !IsNumericChar(text[i]) && !IsSpace(text[i]);
    var k := KeptCharacter(text, r, text[i]);
    assert !IsNumericChar(r[k]) && !IsSpace(r[k]);
    var j :| 0 <= j < |text| && IsArabicScript(text[j]);
    var m := KeptCharacter(text, r, text[j]);
    assert IsArabicScript(r[m]);
  }

  lemma KeptCharacter(text: string, r: string, c: char) returns (k: nat)
    requires multiset(NonSpaces(r)) == multiset(NonSpaces(text))
    requires c in text && !IsSpace(c)
    ensures k < |r| && r[k] == c
  {
    assert c in NonSpaces(text);
    assert c in multiset(NonSpaces(r));
    assert c in NonSpaces(r);
    k :| 0 <= k < |r| && r[k] == c;
  }

  /** A rearranged text is again one that the function rearranges. */
  lemma FixPersianTextStillReorders(text: string)
    requires Reorders(text)
    ensures Reorders(FixPersianText(text))
  {
    FixPersianTextKeepsCharacters(text);
    ReordersWithSameCharacters(text, FixPersianText(text));
  }

  /**
   * Applying the function twice gives back a rearranged text with its
   * whitespace collapsed, and any other text unchanged.
   */
  lemma FixPersianTextTwice(text: string)
    ensures FixPersianText(FixPersianText(text)) == if Reorders(text) then Join(Words(text)) else text
  {
    if Reorders(text) {
      var ws := Words(text);
      RearrangedWords(text);
      FixPersianTextStillReorders(text);
      RearrangedWords(FixPersianText(text));
      FixTokensReversedTwice(ws);
    }
  }

  /** Fixing and reversing a token sequence twice gives it back. */
  lemma FixTokensReversedTwice(ws: seq<string>)
    ensures Reversed(FixTokens(Reversed(FixTokens(ws)))) == ws
  {
    calc {
      Reversed(FixTokens(Reversed(FixTokens(ws))));
      { FixTokensCommutesWithReversed(FixTokens(ws)); }
      Reversed(Reversed(FixTokens(FixTokens(ws))));
      { ReversedReversed(FixTokens(FixTokens(ws))); }
      FixTokens(FixTokens(ws));
      { FixTokensTwice(ws); }
      ws;
    }
  }

  /** Fixing every token twice gives the tokens back. */
  lemma FixTokensTwice(ws: seq<string>)
    ensures FixTokens(FixTokens(ws)) == ws
  {
    forall i | 0 <= i < |ws| ensures FixTokens(FixTokens(ws))[i] == ws[i] {
      FixTokenTwice(ws[i]);
    }
  }

  /** Fixing tokens and reversing their order can be done in either order. */
  lemma FixTokensCommutesWithReversed(ws: seq<string>)
    ensures FixTokens(Reversed(ws)) == Reversed(FixTokens(ws))
  {
    var left, right := FixTokens(Reversed(ws)), Reversed(FixTokens(ws));
    forall i | 0 <= i < |ws| ensures left[i] == right[i] {
      assert Reversed(ws)[i] == ws[|ws| - 1 - i];
    }
  }

  /** On collapsed text, such as every cleaned table cell, the function is its own inverse. */
  lemma FixPersianTextInvolution(text: string)
    requires IsCollapsed(text)
    ensures FixPersianText(FixPersianText(text)) == text
  {
    FixPersianTextTwice(text);
  }

  /** The result is collapsed whenever the input is, and always when the text is rearranged. */
  lemma FixPersianTextCollapsed(text: string)
    requires IsCollapsed(text) || Reorders(text)
    ensures IsCollapsed(FixPersianText(text))
  {
    if Reorders(text) {
      var rs := Reversed(FixTokens(Words(text)));
      assert AllWords(rs);
      JoinIsCollapsed(rs);
    }
  }
}
