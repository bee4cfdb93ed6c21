# Church notation transcoder, in Dafny

This project models the three string functions of `js/church.js` and proves
properties of them. Together they convert between fully bracketed formula
text and Church's single-dot notation:

- `trimOuterParens` is the normaliser. It trims whitespace, then strips outer
  bracket pairs for as long as the whole string is one pair.
- `churchCompress` goes from brackets to dots. It normalises the input, pairs
  every `(` with its `)` using a stack, and runs the span processor `rec`. In
  `rec`, a pair whose `)` ends the current span becomes `". "` followed by its
  compressed interior, right-trimmed. Every other pair is kept. Finally, any
  whitespace run in front of a dot is collapsed to one space.
- `churchExpand` goes from dots to brackets. It is one left-to-right scan over
  a stack of two kinds of opener.
  - A dot not followed by another dot is a *heavy dot*: it writes `(` and
    opens a dot-scope.
  - A `)` first closes every dot-scope on top of the stack.
  - Dot-scopes still open at the end are closed, down to the first unclosed
    `(`.

Layout, one module per file:

- `text.dfy` (`Text`): the JavaScript whitespace class, `trim` and
  `trimEnd`. It also defines `Strip` (delete all whitespace) and `Content`
  (the payload: every character that is not whitespace, a parenthesis or a
  dot).
- `brackets.dfy` (`Brackets`): nesting depth and `Balanced`, the mate of a
  `(`, the pair map as a value (`Pairs`), and the stack loop that builds it
  (`PairMap`).
- `normalizer.dfy` (`Normalizer`): `trimOuterParens` as a function
  (`TrimOuter`) and as the source's loop (`TrimOuterParens`, `DepthWalk`).
- `compressor.dfy` (`Compressor`): `rec` as a pure function over a span
  (`Rec`) and as the source's loop with an early return (`RecSpan`). It also
  holds the tidy-up replace (`Tidy`) and `churchCompress` (`Compress`,
  `ChurchCompress`).
- `expander.dfy` (`Expander`): the scan step, the inner and final closing
  loops, `churchExpand` (`Expand`, `ChurchExpand`), and balance and payload
  preservation.
- `roundtrip.dfy` (`RoundTrip`): expanding the compression of dot-free
  balanced text gives back the normalised text, up to whitespace.
- `samples.dfy` (`Samples`): two compressions worked out in full.

On unbalanced input the code raises no error: `pair.set(stack.pop(), i)`
runs on an empty stack, and a missing mate turns into `undefined` indices.
This model states balance as the precondition of compression and adds no
error path.

## Model

| member | source | states |
|---|---|---|
| `Text.TrimEnd` | js/church.js:43 | `trimEnd` removes exactly a whitespace suffix: the result is a prefix of the input, what was cut is all whitespace, and the result does not end in whitespace |
| `Text.Trim` | js/church.js:10 | `trim` leaves no whitespace at either end and never lengthens the string |
| `Text.TrimSlice` | js/church.js:10 | `trim` keeps exactly the slice of the input that starts after its leading whitespace run and is followed only by whitespace |
| `Text.TrimIdempotent` | js/church.js:10 | trimming twice is the same as trimming once |
| `Normalizer.TrimOuter` | js/church.js:9-21 | the normalised string has no whitespace at either end and is not one whole bracket pair; it keeps the payload in order, adds no character, and stays balanced when the input was |
| `Normalizer.Peel` | js/church.js:11-19 | the strip loop, started on text without edge whitespace, ends on text that has none and is not one whole pair; it never lengthens the text, keeps the payload and every character it keeps comes from the input, and preserves balance |
| `Normalizer.DepthWalk` | js/church.js:12-16 | the depth walk stops at the first return to depth zero or at the end, and ends at depth zero at the very end exactly when the string is one whole pair |
| `Normalizer.WalkDecides` | js/church.js:13-17 | where the walk stops decides the strip test: depth zero at the end iff no proper prefix returns to depth zero |
| `Normalizer.PeelStep` | js/church.js:17 | stripping one whole pair and trimming again keeps the text free of edge whitespace and does not change the final result of the loop |
| `Normalizer.WrappedMiddle` | js/church.js:17 | a whole pair ends in `)`, and its interior is balanced and has the same payload |
| `Normalizer.TrimOuterParens` | js/church.js:9-21 | the source's trim-and-strip loop computes the normaliser |
| `Normalizer.TrimOuterIdempotent` | js/church.js:9-21 | normalising twice is the same as normalising once |
| `Normalizer.TrimOuterChangesOnlyWhole` | js/church.js:11-18 | apart from trimming, the normaliser changes its input exactly when the trimmed input is one whole pair |
| `Normalizer.WrappedWholeIsMate` | js/church.js:11-17 | for balanced text starting with `(`, being one whole pair is the same as the mate of index 0 being the last index |
| `Normalizer.TrimOuterKeepsSidePairs` | js/church.js:11-18 | `"(p)(q)"` is left as it is: its first `(` closes before the end |
| `Normalizer.TrimOuterKeepsUnclosed` | js/church.js:11-18 | `"(a"` is left as it is: the depth never returns to zero |
| `Brackets.Mate` | js/church.js:30-33 | in balanced text, every `(` at `i` has a mate `j > i` with `s[j] == ')'`, at the same depth, with the depth strictly above it in between |
| `Brackets.MateUnique` | js/church.js:30-33 | the first return to the depth of `i` is the mate of `i` |
| `Brackets.MateInteriorBalanced` | js/church.js:30-33 | what lies strictly between a `(` and its mate is balanced |
| `Brackets.PopMate` | js/church.js:32 | at a `)`, the stack is not empty and its top is the `(` this `)` closes |
| `Brackets.PairMap` | js/church.js:30-33 | the stack loop maps every `(` to its mate and has no other keys; it is the only such map |
| `Brackets.PairsUnique` | js/church.js:30-33 | any map that sends every `(` to its mate and has no other keys is the pair map |
| `Compressor.SpanNested` | js/church.js:36-46 | under the pair map, every balanced span is well nested for the span processor: each pair's interior and remainder are smaller spans of the same kind |
| `Compressor.Rec` | js/church.js:36-52 | the span processor never writes more characters than the span holds |
| `Compressor.RecSpan` | js/church.js:36-52 | the source's loop, with its output accumulator and early return, computes the span processor |
| `Compressor.TailStep` | js/church.js:42-43 | right-trimming the whole accumulator after `". " + inner` trims only the new tail, because the dot is not whitespace |
| `Compressor.RecBalanced` | js/church.js:36-52 | the compressed span is balanced |
| `Compressor.RecContent` | js/church.js:36-52 | the compressed span has the payload of the span, in order |
| `Compressor.RecNoDoubleDot` | js/church.js:36-52 | on dot-free text, compression never writes two dots in a row |
| `Compressor.RecStartsWithDot` | js/church.js:39-43 | on dot-free text, a compressed span starts with a dot exactly when it starts with a pair whose mate ends the span |
| `Compressor.Tidy` | js/church.js:53 | the replace of whitespace runs before a dot changes whitespace only, and the result starts with a dot exactly when the input does |
| `Compressor.TidyRun` | js/church.js:53 | a whitespace run of any length followed by a dot becomes one space and the dot, and the replace carries on after the dot |
| `Compressor.TidySpaced` | js/church.js:53 | after the replace, whitespace directly before a dot is a single `' '` that does not follow other whitespace |
| `Compressor.TidyKeepsSpaced` | js/church.js:53 | text already in that shape is left unchanged; in particular text with no whitespace before any dot |
| `Compressor.TidyConcat` | js/church.js:53 | the replace works piece by piece: cut after a non-whitespace character, each side is replaced on its own, because no match crosses such a cut |
| `Compressor.TidyIdempotent` | js/church.js:53 | replacing twice gives the same text as replacing once |
| `Compressor.TidyNoDoubleDot` | js/church.js:53 | tidying does not create two dots in a row |
| `Compressor.CompressTrimmed` | js/church.js:26-53 | pairing, the span processor and the tidy-up turn balanced normalised text into balanced text with the same payload in order |
| `Compressor.Compress` | js/church.js:24-54 | compression of balanced text is balanced and keeps the payload in order |
| `Compressor.CompressSpan` | js/church.js:26-53 | pair map, span loop and tidy-up compute compression of normalised text |
| `Compressor.ChurchCompress` | js/church.js:24-54 | the source's procedure computes compression |
| `Samples.CompressNested` | js/church.js:24-54 | `"(a(bc))"` compresses to `"a. bc"` |
| `Samples.CompressSidePairs` | js/church.js:24-54 | `"((p)(q))"` compresses to `"(p). q"` |
| `Expander.CloseDots` | js/church.js:71-74 | the inner closing loop pops only dot-scopes, stops at an ordinary `(` or the bottom, and writes one `)` per scope popped |
| `Expander.Finish` | js/church.js:82 | the end loop, which pops before it tests, writes the same output as closing the dot-scopes above the topmost ordinary `(` |
| `Expander.ChurchExpand` | js/church.js:57-84 | the source's loops compute the expansion |
| `Expander.StepShape` | js/church.js:64-79 | one iteration only appends to the output and changes the stack only at its top: `(` and a heavy dot push one entry of their kind, `)` pops every dot-bracket on top and writes a `)` for each, then pops the `(` entry beneath them if there is one (otherwise the stack held only dot-brackets and is now empty), and writes its own `)`; any other character is copied and leaves the stack alone |
| `Expander.StepTracks` | js/church.js:64-79 | one scan step keeps the invariant: the open count of the output equals the stack height, and the ordinary openers on the stack equal the input's depth |
| `Expander.ScanTracks` | js/church.js:59-80 | the invariant holds through the whole scan |
| `Expander.ExpandBalanced` | js/church.js:57-84 | expansion of text with balanced parentheses is balanced; every dot-scope is closed |
| `Expander.ExpandContent` | js/church.js:57-84 | expansion keeps the payload in order |
| `Expander.ExpandDotFree` | js/church.js:57-84 | text without dots comes back unchanged, balanced or not |
| `Expander.ExpandHeavyDot` | js/church.js:64-66 | `"a. bc"` expands to `"a( bc)"` |
| `Expander.ExpandDoubledDot` | js/church.js:64 | `"a..b"` expands to `"a.(b)"`: the first dot of a pair is copied, the second is heavy |
| `Expander.ExpandStopsAtParen` | js/church.js:82 | `". (a"` expands to `"( (a"`: the end loop stops at the unclosed `(` and the dot-scope beneath it stays open |
| `RoundTrip.ScanIsRun` | js/church.js:64 | on text with no two dots in a row, the scan is the scan that treats every dot as heavy |
| `RoundTrip.RunTidy` | js/church.js:53 | the tidy-up does not change what the expander's scan does, up to whitespace |
| `RoundTrip.RecRun` | js/church.js:36-52 | scanning a compressed dot-free span restores the span, up to whitespace, and leaves only dot-scopes above the starting stack |
| `RoundTrip.CompressRestores` | js/church.js:24-54 | compressing dot-free balanced text gives text without doubled dots, whose scan restores the normalised input |
| `RoundTrip.FinishRestores` | js/church.js:82 | the end loop closes the dot-scopes the scan left open |
| `RoundTrip.CompressThenExpand` | js/church.js:24-84 | for balanced text without dots, expanding the compression gives the normalised input once all whitespace is deleted; the result is balanced and keeps the payload |

## Left out

- The user interface in `js/dom.js` is not part of this model: DOM access,
  event handlers and the error display.
- The parser, the lexer and the renderer to Principia-style dots are not part
  of this model.
- Unbalanced input to compression: the code has no error path, and its
  behaviour there (an empty-stack `pop`, `undefined` mates, `NaN` spans) is
  not modelled. Balance is a precondition of `Compress` and
  `ChurchCompress`.
- `pair.get` on a missing key is not modelled. Under the balance
  precondition every lookup finds its key; `Nested` carries that fact into
  every span.
- Whitespace is the fixed ECMAScript set that `trim`, `trimEnd` and `\s`
  share. The model has no Unicode normalisation.
- Strings are sequences of Unicode scalar values (Dafny `char`), not of
  UTF-16 code units as in JavaScript. A character outside the Basic
  Multilingual Plane is one `char` here and two code units there, and a lone
  surrogate, which a JavaScript string can hold, has no `char` at all. The
  transcoder tests only `(`, `)`, `.` and whitespace, all in the Basic
  Multilingual Plane, so this changes no branch it takes; indices and
  lengths differ only on such characters.
- Text.Trim: its own contract states only the two edge conditions and the
  length bound. `Text.TrimSlice` states which slice is kept; it is a separate
  lemma so that every use of `Trim` does not carry the slice equations.
- Compressor.Tidy: its own contract states only that whitespace alone
  changes and that the leading dot is kept. What the replace does to each
  run is stated by `TidyRun`, `TidySpaced`, `TidyKeepsSpaced`, `TidyConcat`
  and `TidyIdempotent`.
- RoundTrip.CompressThenExpand: compares the texts after deleting all
  whitespace, not only the whitespace around dots. Compression moves spaces
  around dots, and `trimEnd` removes trailing spaces inside a dot-scope.
- RoundTrip.CompressThenExpand: requires input without dots. A dot in the
  input is payload to compression, but the expander reads it as a scope
  opener, so such input does not round-trip.
- Expander.ExpandBalanced: needs balanced parentheses in the expander's
  input. For other input, the end loop's stop at the first unclosed `(`
  leaves dot-scopes beneath it open, as `ExpandStopsAtParen` shows. The model
  keeps this behaviour and does not correct it.
