# Tokenizing and padding intermediate steps (mathematics_dataset)

This project models the two text transformations that
`mathematics_dataset/generate_to_file_intermediate_steps.py` applies to each
generated problem before writing it out, and proves what they do.

- `tokenize` prepares text for a character-level sequence model. Newlines become
  `@`, spaces become `_`, and the characters are joined with single spaces, so
  each character is a token of its own. It is modelled as the pure function
  `Tokenization.Tokenize`. That function is built from models of Python's
  `str.replace`, iteration over a string's characters and `" ".join`.
- `pad_out_intermediate_answers` splits the tokenized intermediate steps on `" "`.
  It masks every token after an `=` and before the next `@` with `<pad>`, then
  re-joins the tokens with `" "`. The source loop, with its `replacing` flag and
  its growing `new_arr`, is modelled as the method
  `Padding.PadOutIntermediateAnswers`. That method is proved equal to the pure
  specification `Padding.PadOut`. In that specification, output token `i` is
  decided only by token `i` and by the masking state before it: "the last `=`/`@`
  token before `i` is `=`" (`Padding.Masked`). All the lemmas about padding are
  stated on `PadOut`.

Python's `str.split(" ")` is modelled exactly (`PythonStrings.Split`):
`"".split(" ")` is `[""]`, and adjacent separators give empty tokens. As a
result, `Join(" ", Split(s, ' ')) == s` holds for every `s`. The converse,
splitting a join, holds for any non-empty list of space-free tokens.

Files:

- `python_strings.dfy`: module `PythonStrings`, the Python string built-ins
  used, with their split/join round trips.
- `tokenization.dfy`: module `Tokenization`, the tokenizer and its decoding.
- `padding.dfy`: module `Padding`, the padding specification, the scan, and
  the properties of padding.

One point of detail follows from the code. An input token that is literally
`<pad>` and lies outside a masked span is copied as it is. So "output token `i`
is `<pad>` exactly when it is masked" holds for input tokens other than
`<pad>`. `Padding.PadOutTokenAt` states the general, positional form as well.

## Model

| member | source | states |
|---|---|---|
| PythonStrings.ReplaceChar | mathematics_dataset/generate_to_file_intermediate_steps.py:86-87 | `str.replace` of one character by another keeps the length and changes exactly the positions holding the replaced character |
| PythonStrings.Split | mathematics_dataset/generate_to_file_intermediate_steps.py:94 | `split(" ")` always returns at least one token, and no token contains the separator |
| PythonStrings.JoinSplit | mathematics_dataset/generate_to_file_intermediate_steps.py:94 | joining the tokens of `split(sep)` with `sep` gives back the original text, for every text |
| PythonStrings.SplitJoin | mathematics_dataset/generate_to_file_intermediate_steps.py:111 | splitting `sep.join(ts)` gives back `ts` when `ts` is non-empty and no token contains `sep` |
| PythonStrings.JoinCharsAt | mathematics_dataset/generate_to_file_intermediate_steps.py:88 | `sep.join` over a string's characters has length `2n-1` (0 when empty); even positions hold the characters in order, odd positions hold the separator |
| Tokenization.SubstitutedAt | mathematics_dataset/generate_to_file_intermediate_steps.py:86-87 | the two chained replacements act as one per-character map: newline to `@`, space to `_`, every other character unchanged |
| Tokenization.TokenizeShape | mathematics_dataset/generate_to_file_intermediate_steps.py:84-89 | `tokenize(x)` is empty exactly when `x` is; otherwise its length is `2*|x|-1`; position `2k` is the substituted `x[k]` and every odd position is a space |
| Tokenization.TokenizeMarkers | mathematics_dataset/generate_to_file_intermediate_steps.py:86-88 | the tokenized text contains no newline, and no space at an even position |
| Tokenization.DetokenizeTokenize | mathematics_dataset/generate_to_file_intermediate_steps.py:86-88 | for text with no `@` and no `_`, dropping the separator spaces and undoing both substitutions recovers the text |
| Tokenization.TokenizeInjective | mathematics_dataset/generate_to_file_intermediate_steps.py:86-88 | two texts without `@` and `_` that tokenize the same are equal |
| Tokenization.SplitTokenize | mathematics_dataset/generate_to_file_intermediate_steps.py:84-89 | splitting a non-empty tokenized text on `" "` gives one token per input character, the one-character string of its substitute |
| Tokenization.TokenizeSpaceExample | mathematics_dataset/generate_to_file_intermediate_steps.py:84-89 | `tokenize("a b") == "a _ b"` |
| Tokenization.TokenizeNewlineExample | mathematics_dataset/generate_to_file_intermediate_steps.py:84-89 | `tokenize("x\ny") == "x @ y"` |
| Tokenization.TokenizeEquationExample | mathematics_dataset/generate_to_file_intermediate_steps.py:84-89 | `tokenize("1+1=2") == "1 + 1 = 2"` |
| Padding.MaskedStep | mathematics_dataset/generate_to_file_intermediate_steps.py:98-110 | the masking state after one more token: an `=` turns it on, an `@` turns it off, any other token leaves it as it was |
| Padding.PadOutIntermediateAnswers | mathematics_dataset/generate_to_file_intermediate_steps.py:92-111 | the scan with its `replacing` flag returns exactly the specification `PadOut(x)` |
| Padding.MaskedIffOpenEquals | mathematics_dataset/generate_to_file_intermediate_steps.py:97-110 | the scan's masking state is on exactly when some `=` token is followed by no `=` and no `@` (the most recent marker is `=`) |
| Padding.PadTokensPrefix | mathematics_dataset/generate_to_file_intermediate_steps.py:98-110 | padding is causal: padding a prefix of the tokens gives the same prefix of the padded tokens |
| Padding.MaskedPadTokens | mathematics_dataset/generate_to_file_intermediate_steps.py:98-110 | the padded tokens leave the scan in the same masking state as the original tokens |
| Padding.PadTokensIdempotent | mathematics_dataset/generate_to_file_intermediate_steps.py:97-110 | padding an already padded token sequence changes nothing |
| Padding.SplitPadOut | mathematics_dataset/generate_to_file_intermediate_steps.py:94-111 | splitting the padded text on `" "` gives exactly the padded token sequence of the input's tokens |
| Padding.PadOutJoin | mathematics_dataset/generate_to_file_intermediate_steps.py:94-111 | on a join of a non-empty list of space-free tokens, padding the text is joining the padded tokens |
| Padding.PadOutTokenwise | mathematics_dataset/generate_to_file_intermediate_steps.py:94-111 | padding keeps the number of tokens; each output token is the input token at that index or `<pad>`; every `@` token is kept |
| Padding.PadOutTokenAt | mathematics_dataset/generate_to_file_intermediate_steps.py:97-110 | output token `i` is `<pad>` if token `i` is not `@` and an `=` before it is still open, and is token `i` otherwise; for a token other than `<pad>` this is an if-and-only-if; an `=` inside an open span is padded too |
| Padding.PadOutUnclosedEquals | mathematics_dataset/generate_to_file_intermediate_steps.py:97-110 | an `=` with no later `@` turns every token after it into `<pad>` |
| Padding.NotMaskedWithoutEquals | mathematics_dataset/generate_to_file_intermediate_steps.py:98-104 | without an `=` token the scan never enters the masking state |
| Padding.PadOutWithoutEquals | mathematics_dataset/generate_to_file_intermediate_steps.py:94-111 | a text in which no token is `=` is returned unchanged |
| Padding.PadOutIdempotent | mathematics_dataset/generate_to_file_intermediate_steps.py:92-111 | padding a padded text returns it unchanged |
| Padding.PadOutTokenizedWithoutEquals | mathematics_dataset/generate_to_file_intermediate_steps.py:84-111 | padding the tokenized form of a text without `=` leaves it unchanged |
| Padding.PadOutEquationExample | mathematics_dataset/generate_to_file_intermediate_steps.py:92-111 | `"1 + 1 = 2"` pads to `"1 + 1 = <pad>"` |
| Padding.PadOutTwoSpansExample | mathematics_dataset/generate_to_file_intermediate_steps.py:92-111 | `"= a @ = b @"` pads to `"= <pad> @ = <pad> @"`: the two spans are masked independently |

## Left out

- `main` (lines 55-81) is not modelled. It creates the output directories and
  opens, writes and closes files. It also logs, prints progress, and reads its
  options from command-line flags (lines 47-52). All of this is I/O.
- The `generate` module (`init_modules`, `filtered_modules`, `counts`,
  `sample_from_module`) is not part of this model. Its problem generation and
  random sampling happen outside this code.
- `str(problem.question)` and `str(problem.intermediate_steps)` call into objects
  of that module. Only the string functions applied to the resulting text are
  modelled.
- The three output files of a module have equal line counts. This depends on
  the sampler and on real file writes, so it is not modelled. The only fact
  about it in this code is that the loop at line 75 writes one line to each
  stream per iteration.
- Characters are Dafny `char`s, which are Unicode scalar values; Python `str`
  elements are code points. No encoding or normalisation is involved in either
  function.
