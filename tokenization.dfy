/**
 The character-level tokenizer applied to every question and every
 intermediate-steps text before it is written out: newlines become `@`, spaces
 become `_`, and the characters are then joined with single spaces so that each
 one is a token of its own.
 */
module Tokenization {
  import opened PythonStrings

  /** The marker a newline is replaced by. */
  const NewlineMarker: char := '@'
  /** The marker a space is replaced by. */
  const SpaceMarker: char := '_'

  /** What one input character becomes in the tokenized text. */
  function Subst(c: char): char
  {
    if c == '\n' then NewlineMarker else if c == ' ' then SpaceMarker else c
  }

  /** Undoes `Subst` on every character that is not itself a marker. */
  function Unsubst(c: char): char
  {
    if c == NewlineMarker then '\n' else if c == SpaceMarker then ' ' else c
  }

  /** The text after the two chained `replace` calls. */
  function Substituted(x: string): string
  {
    ReplaceChar(ReplaceChar(x, '\n', NewlineMarker), ' ', SpaceMarker)
  }

  /** `tokenize(x)`: the two substitutions, then `' '.join` over the characters. */
  function Tokenize(x: string): string
  {
    Join(" ", Chars(Substituted(x)))
  }

  /**
   The decoding the tokenizer is meant to admit: keep the even positions (dropping
   the separating spaces) and undo the two substitutions.
   */
  function Detokenize(t: string): string
  {
    seq((|t| + 1) / 2, k requires 0 <= k < (|t| + 1) / 2 => Unsubst(t[2 * k]))
  }

  /** The two chained replacements act as one per-character substitution. */
  lemma SubstitutedAt(x: string)
    ensures |Substituted(x)| == |x|
    ensures forall k :: 0 <= k < |x| ==> Substituted(x)[k] == Subst(x[k])
  {
  }

  /**
   Length and shape: the empty text tokenizes to the empty text, a non-empty one
   to `2 * |x| - 1` characters; even position `j` holds the substituted character
   `x[j / 2]` and every odd position holds a space.
   */
  lemma TokenizeShape(x: string)
    ensures Tokenize(x) == [] <==> x == []
    ensures |Tokenize(x)| == if |x| == 0 then 0 else 2 * |x| - 1
    ensures forall j :: 0 <= j < |Tokenize(x)| && j % 2 == 0 ==> Tokenize(x)[j] == Subst(x[j / 2])
    ensures forall j :: 0 <= j < |Tokenize(x)| && j % 2 == 1 ==> Tokenize(x)[j] == ' '
  {
    SubstitutedAt(x);
    JoinCharsAt(Substituted(x), ' ');
  }

  /**
   The tokenized text has no newline at all, and a space only as a separator
   (never at an even position).
   */
  lemma TokenizeMarkers(x: string)
    ensures '\n' !in Tokenize(x)
    ensures forall j :: 0 <= j < |Tokenize(x)| && j % 2 == 0 ==> Tokenize(x)[j] != ' '
  {
    TokenizeShape(x);
    var t := Tokenize(x);
    forall j | 0 <= j < |t|
      ensures t[j] != '\n'
    {
      if j % 2 == 0 {
        assert t[j] == Subst(x[j / 2]);
      }
    }
  }

  /**
   Round trip: on text that contains neither marker character, decoding the
   tokenized text gives back the original.
   */
  lemma DetokenizeTokenize(x: string)
    requires NewlineMarker !in x && SpaceMarker !in x
    ensures Detokenize(Tokenize(x)) == x
  {
    TokenizeShape(x);
    var t := Tokenize(x);
    var d := Detokenize(t);
    assert |d| == |x|;
    forall k | 0 <= k < |x|
      ensures d[k] == x[k]
    {
      assert (2 * k) % 2 == 0 && (2 * k) / 2 == k;
      assert t[2 * k] == Subst(x[k]);
    }
  }

  /** Hence the tokenizer loses nothing on such text: different texts tokenize differently. */
  lemma TokenizeInjective(x: string, y: string)
    requires NewlineMarker !in x && SpaceMarker !in x
    requires NewlineMarker !in y && SpaceMarker !in y
    requires Tokenize(x) == Tokenize(y)
    ensures x == y
  {
    DetokenizeTokenize(x);
    DetokenizeTokenize(y);
  }

  /**
   One token per character: splitting a non-empty tokenized text on `" "` gives
   exactly the one-character strings of the substituted text.
   */
  lemma SplitTokenize(x: string)
    requires x != []
    ensures |Split(Tokenize(x), ' ')| == |x|
    ensures forall k :: 0 <= k < |x| ==> Split(Tokenize(x), ' ')[k] == [Subst(x[k])]
  {
    SubstitutedAt(x);
    var cs := Chars(Substituted(x));
    forall i | 0 <= i < |cs|
      ensures ' ' !in cs[i]
    {
      assert cs[i] == [Subst(x[i])];
    }
    SplitJoin(cs, ' ');
  }

  /** Worked example: `tokenize("a b")` is `"a _ b"`, the space becoming a token of its own. */
  lemma TokenizeSpaceExample()
    ensures Tokenize("a b") == "a _ b"
  {
    TokenizeShape("a b");
    var t := Tokenize("a b");
    assert t[0] == 'a' && t[1] == ' ' && t[2] == '_' && t[3] == ' ' && t[4] == 'b';
  }

  /** Worked example: `tokenize("x\ny")` is `"x @ y"`. */
  lemma TokenizeNewlineExample()
    ensures Tokenize("x\ny") == "x @ y"
  {
    TokenizeShape("x\ny");
    var t := Tokenize("x\ny");
    assert t[0] == 'x' && t[1] == ' ' && t[2] == '@' && t[3] == ' ' && t[4] == 'y';
  }

  /** Worked example: `tokenize("1+1=2")` is `"1 + 1 = 2"`. */
  lemma TokenizeEquationExample()
    ensures Tokenize("1+1=2") == "1 + 1 = 2"
  {
    TokenizeShape("1+1=2");
    var t := Tokenize("1+1=2");
    assert t[0] == '1' && t[1] == ' ' && t[2] == '+' && t[3] == ' ' && t[4] == '1';
    assert t[5] == ' ' && t[6] == '=' && t[7] == ' ' && t[8] == '2';
  }
}
