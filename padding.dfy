/**
 The padding pass over a tokenized intermediate-steps text: every token on the
 right-hand side of an `=`, up to the next `@` (an original newline), is replaced
 by the placeholder `<pad>`; the `=` that opens a span and the `@` that closes it
 are kept, and so is everything outside such spans.
 */
module Padding {
  import opened PythonStrings
  import opened Tokenization

  /** The token that opens a masked span. */
  const Equals: string := "="
  /** The token that closes a masked span: a newline in the original text. */
  const Boundary: string := "@"
  /** The placeholder a masked token becomes. */
  const Pad: string := "<pad>"

  /**
   The masking state after scanning `ts`: the last token of `ts` that is `=` or
   `@` is `=`.
   */
  function Masked(ts: seq<string>): bool
  {
    if |ts| == 0 then false
    else if ts[|ts| - 1] == Equals then true
    else if ts[|ts| - 1] == Boundary then false
    else Masked(ts[..|ts| - 1])
  }

  /** One step of the scan: how the state moves on over token `ts[i]`. */
  lemma MaskedStep(ts: seq<string>, i: nat)
    requires i < |ts|
    ensures Masked(ts[..i + 1]) ==
              if ts[i] == Equals then true
              else if ts[i] == Boundary then false
              else Masked(ts[..i])
  {
    assert ts[..i + 1][..i] == ts[..i];
  }

  /** One step of the scan over `ts[i]`: the token it appends and the state it moves to. */
  lemma ScanStep(ts: seq<string>, i: nat)
    requires i < |ts|
    ensures PadTokens(ts)[..i + 1] ==
              PadTokens(ts)[..i] + [if Masked(ts[..i]) && ts[i] != Boundary then Pad else ts[i]]
    ensures Masked(ts[..i + 1]) ==
              if ts[i] == Equals then true
              else if ts[i] == Boundary then false
              else Masked(ts[..i])
  {
    MaskedStep(ts, i);
    assert PadTokens(ts)[..i + 1] == PadTokens(ts)[..i] + [PadTokens(ts)[i]];
  }

  /**
   `ts[j]` is an `=` that is still open at the end of `ts`: no `=` and no `@`
   follows it.
   */
  ghost predicate OpenEquals(ts: seq<string>, j: int)
  {
    0 <= j < |ts| && ts[j] == Equals &&
    forall k :: j < k < |ts| ==> ts[k] != Equals && ts[k] != Boundary
  }

  /** The padded token sequence, token by token: token `i` is masked by the state before it. */
  function PadTokens(ts: seq<string>): (us: seq<string>)
    ensures |us| == |ts|
  {
    seq(|ts|, i requires 0 <= i < |ts| =>
      if Masked(ts[..i]) && ts[i] != Boundary then Pad else ts[i])
  }

  /** `pad_out_intermediate_answers(x)` as a value: split on `" "`, pad, re-join with `" "`. */
  function PadOut(x: string): string
  {
    Join(" ", PadTokens(Split(x, ' ')))
  }

  /**
   `pad_out_intermediate_answers`: one left-to-right scan over the tokens with a
   `replacing` flag, appending one output token per input token.
   */
  method PadOutIntermediateAnswers(x: string) returns (r: string)
    ensures r == PadOut(x)
  {
    var arr := Split(x, ' ');
    var newArr: seq<string> := [];
    var replacing := false;
    var i := 0;
    while i < |arr|
      invariant 0 <= i <= |arr|
      invariant newArr == PadTokens(arr)[..i]
      invariant replacing == Masked(arr[..i])
    {
      var c := arr[i];
      ScanStep(arr, i);
      if !replacing {
        if c == Equals {
          replacing := true;
          newArr := newArr + [Equals];
        } else {
          newArr := newArr + [c];
        }
      } else {
        if c == Boundary {
          replacing := false;
          newArr := newArr + [Boundary];
        } else {
          newArr := newArr + [Pad];
        }
      }
      i := i + 1;
    }
    assert newArr == PadTokens(arr);
    r := Join(" ", newArr);
  }

  /**
   The masking state, characterised independently of the scan: it is on exactly
   when some `=` is still open, i.e. the most recent `=`/`@` token is `=`.
   */
  lemma {:induction false} MaskedIffOpenEquals(ts: seq<string>)
    ensures Masked(ts) <==> exists j :: OpenEquals(ts, j)
  {
    if |ts| > 0 {
      var n := |ts| - 1;
      var p := ts[..n];
      if ts[n] == Equals {
        assert OpenEquals(ts, n);
      } else if ts[n] == Boundary {
        forall j | 0 <= j < |ts|
          ensures !OpenEquals(ts, j)
        {
          if j < n {
            assert ts[n] == Boundary;
          }
        }
      } else {
        MaskedIffOpenEquals(p);
        forall j
          ensures OpenEquals(ts, j) <==> OpenEquals(p, j)
        {
          if 0 <= j < n {
            assert forall k :: j < k < n ==> p[k] == ts[k];
          }
        }
      }
    }
  }

  /** Padding a prefix gives the prefix of the padding. */
  lemma PadTokensPrefix(ts: seq<string>, i: nat)
    requires i <= |ts|
    ensures PadTokens(ts)[..i] == PadTokens(ts[..i])
  {
    forall j | 0 <= j < i
      ensures PadTokens(ts)[j] == PadTokens(ts[..i])[j]
    {
      assert ts[..i][..j] == ts[..j];
    }
  }

  /** Padding leaves the masking state unchanged: the padded tokens open and close the same spans. */
  lemma {:induction false} MaskedPadTokens(ts: seq<string>)
    ensures Masked(PadTokens(ts)) == Masked(ts)
  {
    if |ts| > 0 {
      var n := |ts| - 1;
      PadTokensPrefix(ts, n);
      MaskedPadTokens(ts[..n]);
    }
  }

  /** Padding a padded token sequence changes nothing more. */
  lemma PadTokensIdempotent(ts: seq<string>)
    ensures PadTokens(PadTokens(ts)) == PadTokens(ts)
  {
    var us := PadTokens(ts);
    forall i | 0 <= i < |ts|
      ensures PadTokens(us)[i] == us[i]
    {
      PadTokensPrefix(ts, i);
      MaskedPadTokens(ts[..i]);
    }
  }

  /** The padded tokens contain no space, so re-joining and re-splitting them is lossless. */
  lemma SplitPadOut(x: string)
    ensures Split(PadOut(x), ' ') == PadTokens(Split(x, ' '))
  {
    var us := PadTokens(Split(x, ' '));
    assert forall i :: 0 <= i < |us| ==> ' ' !in us[i];
    SplitJoin(us, ' ');
  }

  /** On a join of space-free tokens, padding acts on those tokens directly. */
  lemma PadOutJoin(ts: seq<string>)
    requires |ts| >= 1
    requires forall i :: 0 <= i < |ts| ==> ' ' !in ts[i]
    ensures PadOut(Join(" ", ts)) == Join(" ", PadTokens(ts))
  {
    SplitJoin(ts, ' ');
  }

  /**
   Token-wise replacement: the number of `" "`-separated tokens is preserved, each
   output token is the input token at the same index or `<pad>`, and every `@`
   token is kept.
   */
  lemma PadOutTokenwise(x: string)
    ensures |Split(PadOut(x), ' ')| == |Split(x, ' ')|
    ensures forall i :: 0 <= i < |Split(x, ' ')| ==>
              Split(PadOut(x), ' ')[i] == Split(x, ' ')[i] || Split(PadOut(x), ' ')[i] == Pad
    ensures forall i :: 0 <= i < |Split(x, ' ')| && Split(x, ' ')[i] == Boundary ==>
              Split(PadOut(x), ' ')[i] == Boundary
  {
    SplitPadOut(x);
  }

  /**
   Where masking happens: output token `i` is `<pad>` when token `i` is not `@`
   and an `=` before it is still open, and is token `i` itself otherwise; so for
   an input token other than `<pad>`, the output is `<pad>` exactly then.
   */
  lemma PadOutTokenAt(x: string, i: nat)
    requires i < |Split(x, ' ')|
    ensures |Split(PadOut(x), ' ')| == |Split(x, ' ')|
    ensures Split(PadOut(x), ' ')[i] ==
              if Split(x, ' ')[i] != Boundary && exists j :: OpenEquals(Split(x, ' ')[..i], j)
              then Pad else Split(x, ' ')[i]
    ensures Split(x, ' ')[i] != Pad ==>
              (Split(PadOut(x), ' ')[i] == Pad <==>
                 Split(x, ' ')[i] != Boundary && exists j :: OpenEquals(Split(x, ' ')[..i], j))
  {
    SplitPadOut(x);
    MaskedIffOpenEquals(Split(x, ' ')[..i]);
  }

  /**
   An unmatched `=`: when no `@` follows the `=` at index `j`, every token after
   it becomes `<pad>`.
   */
  lemma PadOutUnclosedEquals(x: string, j: nat)
    requires j < |Split(x, ' ')| && Split(x, ' ')[j] == Equals
    requires forall k :: j < k < |Split(x, ' ')| ==> Split(x, ' ')[k] != Boundary
    ensures |Split(PadOut(x), ' ')| == |Split(x, ' ')|
    ensures forall k :: j < k < |Split(x, ' ')| ==> Split(PadOut(x), ' ')[k] == Pad
  {
    var ts := Split(x, ' ');
    SplitPadOut(x);
    forall k | j < k < |ts|
      ensures Masked(ts[..k])
    {
      MaskedAfterEquals(ts, j, k);
    }
  }

  /** After an `=` with no `@` following it, the scan stays in the masking state. */
  lemma {:induction false} MaskedAfterEquals(ts: seq<string>, j: nat, k: nat)
    requires j < k <= |ts| && ts[j] == Equals
    requires forall m :: j < m < k ==> ts[m] != Boundary
    ensures Masked(ts[..k])
  {
    MaskedStep(ts, k - 1);
    if k - 1 > j {
      MaskedAfterEquals(ts, j, k - 1);
    }
  }

  /** Without an `=` token nothing is masked. */
  lemma {:induction false} NotMaskedWithoutEquals(ts: seq<string>)
    requires forall i :: 0 <= i < |ts| ==> ts[i] != Equals
    ensures !Masked(ts)
  {
    if |ts| > 0 {
      NotMaskedWithoutEquals(ts[..|ts| - 1]);
    }
  }

  /** No `=`, no change: text in which no token is `=` comes back unchanged. */
  lemma PadOutWithoutEquals(x: string)
    requires forall i :: 0 <= i < |Split(x, ' ')| ==> Split(x, ' ')[i] != Equals
    ensures PadOut(x) == x
  {
    var ts := Split(x, ' ');
    forall i | 0 <= i < |ts|
      ensures PadTokens(ts)[i] == ts[i]
    {
      NotMaskedWithoutEquals(ts[..i]);
    }
    assert PadTokens(ts) == ts;
    JoinSplit(x, ' ');
  }

  /** Idempotence: padding an already padded text gives the same text. */
  lemma PadOutIdempotent(x: string)
    ensures PadOut(PadOut(x)) == PadOut(x)
  {
    SplitPadOut(x);
    PadTokensIdempotent(Split(x, ' '));
  }

  /** In the pipeline: tokenized text whose original had no `=` is not padded at all. */
  lemma PadOutTokenizedWithoutEquals(x: string)
    requires '=' !in x
    ensures PadOut(Tokenize(x)) == Tokenize(x)
  {
    if x == [] {
      TokenizeShape(x);
      assert Split(Tokenize(x), ' ') == [""];
    } else {
      SplitTokenize(x);
    }
    PadOutWithoutEquals(Tokenize(x));
  }

  /** The tokens of the first worked example, before and after padding. */
  lemma EquationExampleTokens()
    ensures Join(" ", ["1", "+", "1", "=", "2"]) == "1 + 1 = 2"
    ensures PadTokens(["1", "+", "1", "=", "2"]) == ["1", "+", "1", "=", Pad]
  {
    var ts := ["1", "+", "1", "=", "2"];
    assert ts[1..] == ["+", "1", "=", "2"];
    assert ts[1..][1..] == ["1", "=", "2"];
    assert ts[1..][1..][1..] == ["=", "2"];
    assert ts[1..][1..][1..][1..] == ["2"];
    MaskedStep(ts, 0);
    MaskedStep(ts, 1);
    MaskedStep(ts, 2);
    MaskedStep(ts, 3);
    assert ts[..0] == [];
  }

  /** The output text of the first worked example. */
  lemma EquationExampleText()
    ensures Join(" ", ["1", "+", "1", "=", Pad]) == "1 + 1 = <pad>"
  {
    JoinCons(" ", "=", [Pad]);
    JoinCons(" ", "1", ["=", Pad]);
    JoinCons(" ", "+", ["1", "=", Pad]);
    JoinCons(" ", "1", ["+", "1", "=", Pad]);
  }

  /** Worked example: `"1 + 1 = 2"` pads to `"1 + 1 = <pad>"`. */
  lemma PadOutEquationExample()
    ensures PadOut("1 + 1 = 2") == "1 + 1 = <pad>"
  {
    EquationExampleTokens();
    PadOutJoin(["1", "+", "1", "=", "2"]);
    EquationExampleText();
  }

  /** The tokens of the second worked example, before and after padding. */
  lemma TwoSpansExampleTokens()
    ensures Join(" ", ["=", "a", "@", "=", "b", "@"]) == "= a @ = b @"
    ensures PadTokens(["=", "a", "@", "=", "b", "@"]) == ["=", Pad, "@", "=", Pad, "@"]
  {
    var ts := ["=", "a", "@", "=", "b", "@"];
    assert ts[1..] == ["a", "@", "=", "b", "@"];
    assert ts[1..][1..] == ["@", "=", "b", "@"];
    assert ts[1..][1..][1..] == ["=", "b", "@"];
    assert ts[1..][1..][1..][1..] == ["b", "@"];
    assert ts[1..][1..][1..][1..][1..] == ["@"];
    MaskedStep(ts, 0);
    MaskedStep(ts, 1);
    MaskedStep(ts, 2);
    MaskedStep(ts, 3);
    MaskedStep(ts, 4);
    assert ts[..0] == [];
  }

  /** The output text of the second worked example. */
  lemma TwoSpansExampleText()
    ensures Join(" ", ["=", Pad, "@", "=", Pad, "@"]) == "= <pad> @ = <pad> @"
  {
    JoinCons(" ", Pad, ["@"]);
    JoinCons(" ", "=", [Pad, "@"]);
    JoinCons(" ", "@", ["=", Pad, "@"]);
    JoinCons(" ", Pad, ["@", "=", Pad, "@"]);
    JoinCons(" ", "=", [Pad, "@", "=", Pad, "@"]);
  }

  /** Worked example: two spans are masked independently, `"= a @ = b @"` to `"= <pad> @ = <pad> @"`. */
  lemma PadOutTwoSpansExample()
    ensures PadOut("= a @ = b @") == "= <pad> @ = <pad> @"
  {
    TwoSpansExampleTokens();
    PadOutJoin(["=", "a", "@", "=", "b", "@"]);
    TwoSpansExampleText();
  }
}
