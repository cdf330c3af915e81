# Colour-tag renderer of the C# tree-sitter bindings, in Dafny

This project models the Rust core of `src/lib.rs` and proves properties of it. The core turns tree-sitter highlight events over a source buffer into Unity-style `<color=#…>…</color>` markup. It has four parts:

- **`ColorTagRenderer`** is a class with the output buffer `html`, the line index `lineOffsets` and the carriage-return highlight. `Render` walks the event stream with a local stack of open highlights. `AddText` runs each source span byte by byte:
  - it closes and reopens every open highlight around each line feed;
  - it drops carriage returns, and marks a lone one with a zero-width tag when a highlight is configured for it;
  - it escapes the other bytes.
  After a successful render the buffer ends in a line feed and has no empty last line.
- **`LossyUtf8`** is the iterator that feeds `AddText`. It yields the valid UTF-8 runs of a span and one U+FFFD (`EF BF BD`) per invalid run. `str::from_utf8` is library code, so it is specified from section 4 of RFC 3629 (well-formedness) and section 3.9 of the Unicode Standard (the maximal ill-formed subpart that `error_len` reports).
- **`shrink_and_clear`** empties a vector.
- **`TSHighlighter::highlight`** maps a render's outcome to the `ErrorCode` returned to C callers.

Modules:

| file | module | contents |
|---|---|---|
| `wrappers.dfy` | `Wrappers` | `Option`, `Result` (`Success`/`Failure`) |
| `bytes.dfy` | `Bytes` | byte constants, `Concat`, `Count` |
| `utf8.dfy` | `Utf8` | RFC 3629 grammar, `FromUtf8` (what `str::from_utf8` reports) |
| `lossy.dfy` | `Lossy` | the `LossyUtf8` class and its specification `NextStep`/`Chunks`/`LossyBytes` |
| `events.dfy` | `Events` | `Result<HighlightEvent, Error>` as one datatype, the first failure of a stream |
| `markup.dfy` | `Markup` | what the renderer writes, as functions (`ByteStep`, `RunText`, `EventStep`, `RunEvents`, `Finish`, `LineSlices`), the line-index invariant `LineIndex`, and the lemmas about them |
| `renderer.dfy` | `Renderer` | the `ColorTagRenderer` class and `ShrinkAndClear`, each method proved against `Markup` |
| `boundary.dfy` | `Boundary` | `ErrorCode`, the result mapping and `highlight` |

The callbacks are function parameters:

- `attr: nat -> seq<bv8>` is the hexcolor callback, `|s| self.attribute_strings[s.0]`.
- `esc: bv8 -> Option<seq<bv8>>` is `util::html_escape`.

Three behaviours of the code worth noting:

- A `HighlightEnd` with no highlight open is not an error. It pops nothing and still writes `</color>` (`Markup.UnbalancedEnd`).
- When the remaining input ends in a truncated character (no `error_len`), `next` returns `None`. Iteration stops there, and the whole characters before the truncated one, back to the previous invalid run, are never yielded (`Lossy.TruncatedTailDropsPrefix`).
- An invalid run right at the end of the input, after a valid prefix, loses its replacement, because `next` tests for empty input before paying the owed replacement (`Lossy.PrefixThenInvalidRun`).

## Model

| member | source | states |
|---|---|---|
| Utf8.FromUtf8 | src/lib.rs:344-364 | `Valid` exactly for RFC 3629 well-formed input. Otherwise the prefix before `validUpTo` is well formed and no whole character starts at `validUpTo`. `errorLen` there is 1 to 3 bytes: a character prefix the next byte cannot continue, or one byte that leads no character. It is none when the input ends inside a character. |
| Utf8.Validate | src/lib.rs:344 | Validation from position `i`, one character at a time: `Valid` iff the rest is well formed. Otherwise it names the first position at or after `i` where no whole character starts, with the same error report as `FromUtf8`. |
| Utf8.LongestValidPrefix | src/lib.rs:350-351 | `validUpTo` is maximal: no prefix longer than `validUpTo` is well formed. |
| Utf8.ErrorLenMaximal | src/lib.rs:350-361 | `errorLen` is the maximal ill-formed subpart. It is a single byte that leads no character, or a character prefix shorter than its lead byte announces that the next byte cannot continue. |
| Lossy.NextStep | src/lib.rs:336-367 | Every chunk one call of `next` yields is non-empty well-formed UTF-8 and strictly decreases 2·\|bytes\| + flag. Yielding nothing leaves the iterator state unchanged. |
| Lossy.ChunksWellFormed | src/lib.rs:336-367 | Whatever the input, everything the decoder yields, joined, is well-formed UTF-8. |
| Lossy.ValidYieldedWhole | src/lib.rs:345-349 | Non-empty well-formed input is yielded whole, as exactly one chunk. |
| Lossy.LeadingInvalidRun | src/lib.rs:358-361 | An invalid run at the start yields exactly one U+FFFD, then decoding resumes after the run. |
| Lossy.LoneInvalidByte | src/lib.rs:358-361 | A single byte that can lead no character (e.g. `0xFF`) decodes to exactly one U+FFFD. |
| Lossy.PrefixThenInvalidRun | src/lib.rs:337-357 | A valid prefix followed by an invalid run yields the prefix, then U+FFFD, then the rest. The replacement is lost when the run ends the input. |
| Lossy.OwedReplacement | src/lib.rs:337-343 | An owed replacement is paid on the next call only if bytes remain. |
| Lossy.TruncatedTailDropsPrefix | src/lib.rs:350-364 | Whole characters followed by a truncated last character yield nothing: iteration ends and the valid prefix is dropped. |
| Lossy.Chunks | src/lib.rs:278 | Every chunk the iterator yields until it returns `None` is non-empty and well-formed UTF-8. |
| Lossy.LossyBytes | src/lib.rs:278 | The bytes `add_text` reads from a span, flattened from the chunks, are well-formed UTF-8. |
| Lossy.LossyUtf8.constructor | src/lib.rs:324-331 | All bytes left to read, no replacement owed. |
| Lossy.LossyUtf8.Next | src/lib.rs:336-367 | The new state and the chunk are those of `NextStep`. `None` only when nothing is left to yield. Otherwise the chunk is the head of what remained, and the measure decreases, so the iteration terminates. |
| Events.FirstFailure | src/lib.rs:202-217 | None iff no event is a failure. Otherwise the error of a failure that no other failure precedes. |
| Markup.ByteStep | src/lib.rs:280-305 | One byte of `add_text`'s loop only appends, to the buffer and to the index. The carriage-return flag is set exactly by a CR. Only an LF adds an index entry. |
| Markup.RunText | src/lib.rs:277-305 | `add_text`'s loop over the decoded bytes of a span only appends, to the buffer and to the index. |
| Markup.ByteStepKeepsIndex | src/lib.rs:280-305 | One byte of `add_text` keeps the line index well kept (starts at 0, strictly increasing, within the buffer, each later entry just past a `\n`). It only appends, to the buffer and to the index. |
| Markup.RunTextKeepsIndex | src/lib.rs:293-296 | A whole span keeps the line index and only appends. |
| Markup.RunTextLineCount | src/lib.rs:293-296 | A span adds exactly one index entry per line feed among its decoded bytes. |
| Markup.RunTextSplit | src/lib.rs:277-279 | The byte loop over concatenated chunks is the loop over each in turn, with the carriage-return flag carried across chunks. |
| Markup.RunTextWithoutMarker | src/lib.rs:280-305 | When no marker can be written, a span writes its bytes with every CR dropped. Every LF becomes \|stack\| `</color>`, the LF, then the open tags bottom to top. Every other byte is escaped or copied. |
| Markup.CrBeforeLf | src/lib.rs:281-291 | A CR directly before an LF writes nothing at all. |
| Markup.LoneCr | src/lib.rs:243-255 | A CR followed in the same span by a byte other than LF writes the marker `<color=` attr `></color>` (no `#`, only when configured and non-empty) right before that byte. |
| Markup.TrailingCr | src/lib.rs:277-284 | A CR that ends a span writes nothing; the flag does not outlive the span. |
| Markup.EventStep | src/lib.rs:204-215 | One start, end or span only appends to the buffer and the index. A start pushes its highlight, an end pops the stack as `Vec::pop` does, and a span leaves the stack alone. |
| Markup.RunEvents | src/lib.rs:202-218 | `render`'s loop over the events, up to and including the first failure, only appends to the buffer and the index. |
| Markup.Pop | src/lib.rs:209-212 | `Vec::pop`: an empty stack stays empty; otherwise the last element is removed. |
| Markup.RunEventsCons | src/lib.rs:202-217 | A failure event stops the loop with that error and the state at that point. Any other event is applied and the loop goes on. |
| Markup.RunEventsFailure | src/lib.rs:216 | A render fails exactly with the stream's first failure, whatever the state and the nesting of starts and ends. |
| Markup.EventStepKeepsIndex | src/lib.rs:204-215 | A start, an end or a source span keeps the line index and only appends. |
| Markup.RunEventsKeepsIndex | src/lib.rs:202-217 | A whole event stream keeps the line index and only appends. |
| Markup.UnbalancedEnd | src/lib.rs:209-212 | An end with no highlight open writes `</color>` and the render goes on, with no failure. |
| Markup.SuppressedOpenStillCloses | src/lib.rs:257-271 | A highlight with an empty attribute writes no open tag, yet its end writes `</color>`. |
| Markup.EndWithLf | src/lib.rs:219-221 | The buffer after the fix-up ends in a line feed. A line feed is appended only if it did not end in one. |
| Markup.DropEmptyLast | src/lib.rs:222-224 | The last entry is dropped exactly when it equals the buffer length. Otherwise the index is unchanged. |
| Markup.Finish | src/lib.rs:219-225 | The fix-up after a successful render appends at most one byte to the buffer and drops at most the last index entry. |
| Markup.DropEmptyLastLine | src/lib.rs:222-224 | Dropping a last entry equal to the buffer length keeps the index, and the last line then starts before the end. |
| Markup.FinishEndsLines | src/lib.rs:219-225 | After a successful render's fix-up, the index is still well kept, the buffer ends in `\n`, and the last offset is below the buffer length. |
| Markup.RenderKeepsIndex | src/lib.rs:193-226 | From a well-kept index, a render leaves one. It does so both when it stops on a failure and after a success, where the buffer also ends in `\n` with no empty last line. |
| Markup.LineSlices | src/lib.rs:228-241 | `lines()` gives exactly one slice per index entry. |
| Markup.LinesConcat | src/lib.rs:228-241 | The lines the index delimits, joined, give the buffer from the first offset on. |
| Markup.LinesRoundTrip | src/lib.rs:228-241 | A well-kept index delimits lines, and joining them gives back exactly the buffer. |
| Markup.FinishedLines | src/lib.rs:219-241 | After a successful render every line is non-empty and ends in `\n`. |
| Renderer.ShrinkAndClear | src/lib.rs:309-315 | The vector always ends empty. |
| Renderer.ColorTagRenderer.constructor | src/lib.rs:173-181 | Empty buffer, index `[0]`, no carriage-return highlight; the index is well kept. |
| Renderer.ColorTagRenderer.SetCarriageReturnHighlight | src/lib.rs:183-185 | Sets the highlight and nothing else. |
| Renderer.ColorTagRenderer.Reset | src/lib.rs:187-191 | Empty buffer, index `[0]`, whatever the state was, so resetting twice is resetting once. The carriage-return highlight is kept. |
| Renderer.ColorTagRenderer.Render | src/lib.rs:193-226 | On the first failure, returns it with the buffer and index as the events before it left them. Otherwise it returns `Ok` with the fix-up applied. A well-kept index stays well kept, and after success the buffer ends in `\n` with no empty last line. |
| Renderer.ColorTagRenderer.RunLoop | src/lib.rs:202-218 | The event loop leaves exactly the state of `RunEvents` and reports its failure. A well-kept index stays well kept. |
| Renderer.ColorTagRenderer.RenderEvent | src/lib.rs:204-215 | One start, end or span does exactly `EventStep`, to the buffer, the index and the local stack. |
| Renderer.ColorTagRenderer.EndLastLine | src/lib.rs:219-225 | The buffer and index become `Finish` of what they were. From a well-kept index, the index stays well kept, the buffer ends in `\n`, and the last line starts before the end of the buffer. |
| Renderer.ColorTagRenderer.Lines | src/lib.rs:228-241 | There is one line per index entry. The entries are in order and within the buffer. Line `i` runs from entry `i` to entry `i + 1`, and the last line runs to the end of the buffer. Joined, the lines give back the buffer. |
| Renderer.ColorTagRenderer.AddCarriageReturn | src/lib.rs:243-255 | Appends `<color=` attr `></color>` exactly when a highlight is configured and its attribute is non-empty; nothing else changes. |
| Renderer.ColorTagRenderer.StartHighlight | src/lib.rs:257-267 | Appends `<color=#` attr `>` exactly when the attribute is non-empty; nothing else changes. |
| Renderer.ColorTagRenderer.EndHighlight | src/lib.rs:269-271 | Always appends `</color>`; nothing else changes. |
| Renderer.ColorTagRenderer.AddByte | src/lib.rs:280-305 | One byte of the loop does exactly `ByteStep`, including the carriage-return flag it carries on. |
| Renderer.ColorTagRenderer.CloseAll | src/lib.rs:294 | Appends exactly `n` copies of `</color>`. |
| Renderer.ColorTagRenderer.ReopenAll | src/lib.rs:297-299 | Appends the open tags of the stack, bottom to top. |
| Renderer.ColorTagRenderer.AddChunk | src/lib.rs:278-305 | The bytes of one decoded chunk do exactly `RunText`, the flag carried in and out. |
| Renderer.ColorTagRenderer.AddText | src/lib.rs:273-306 | The buffer and index become `RunText` over the lossily decoded span with the flag clear at the start. The decoder is driven to its end; termination is shown by its measure. |
| Boundary.ToErrorCode | src/lib.rs:428-439 | `Ok` iff the render succeeded. `InvalidLanguage` iff it failed with `InvalidLanguage`. `Timeout` iff it failed with `Cancelled` or `Unknown`. Never `UnknownScope`. |
| Boundary.HighlightCode | src/lib.rs:396-442 | The code of `highlight`, decided by the stream's first failure. `InvalidLanguage` iff the scope is known, the highlighter starts, and the first failure is `InvalidLanguage`. `Timeout` iff the scope is known and either the highlighter does not start or the first failure is `Cancelled` or `Unknown`. |
| Boundary.OkExactlyWhenClean | src/lib.rs:396-442 | `highlight` returns `Ok` iff the scope is known, the highlighter starts, and no event is a failure. |
| Boundary.UnknownScopeExactly | src/lib.rs:396-399 | `UnknownScope` is returned for an unregistered scope and for nothing else. |
| Boundary.Highlight | src/lib.rs:389-442 | For an unknown scope, or a highlighter that does not start, the buffer is untouched. Otherwise the buffer is reset, takes the carriage-return highlight, and holds exactly what a render into an empty buffer writes, with a well-kept index. The code is the mapping of the stream's first failure. |

## Left out

- The C ABI layer, `unwrap_ptr`'s abort and the raw-pointer handling (`ts_highlight_buffer_*`, `ts_highlighter_highlight`): foreign-call plumbing. `Boundary.Highlight` takes the scope registry, the highlighter's outcome and the buffer as ordinary values.
- The external highlighter (`Highlighter::highlight`) and its cancellation flag: the event stream, or the error the highlighter stops with, is an input. The renderer never reads the flag.
- The injection lookup, a regex search over the registered languages: external regex library.
- The bodies of `util::html_escape` and of `str::from_utf8`: library code. The first is the parameter `esc`. The second is specified by `Utf8.FromUtf8` from RFC 3629 and the maximal ill-formed subpart rule.
- `Vec` capacity, `shrink_to_fit` and the reserve constants: allocator detail. Only the contents are modelled.
- Renderer.ColorTagRenderer.Lines: slices are byte strings. The `str::from_utf8(..).unwrap()` in `lines()` is not modelled, so its panic on a line that is not valid UTF-8 is not captured.
- The `as u32` casts of buffer lengths into `line_offsets`: offsets are unbounded naturals, so buffers of 2^32 bytes or more, where the cast would truncate, are not captured.
- `self.attribute_strings[s.0]` is the parameter `attr`. Its panic on a highlight index outside `attribute_strings` is not modelled.
- Renderer.ColorTagRenderer.Render, Boundary.Highlight: `&source[start..end]` panics on a span outside the source. Both therefore require that every span reached before the first failure lies within the source.
- The test `test_highlighting_via_c_api` and `defeat()`: test code and a linker stub, with no logic of the core.
- `build.rs`: download and code generation only.
