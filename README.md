# Texify core, modelled in Dafny

Texify turns a handwritten formula into LaTeX. The user draws on a canvas, or uploads a picture. The drawing is cropped to the ink and made black and white. A local vision model then reads it, and its raw text is cleaned before it is shown. This project models the deterministic core of that pipeline and proves properties of it:

- **`sanitizeLatex`** (module `Sanitizer`, built on `JsString`). The cleaner of the model's output:
  - `trim`;
  - removal of one math wrapper (`$$`, `$`, `\(`, `\[`) and of a `latex` code fence;
  - five garbage detectors, tried in order; the first one that fires returns its fixed message;
  - salvage of the first clause of an over-long text;
  - removal of trailing white space and one trailing backslash.
- **The undo history of the canvas** (module `UndoHistory`):
  - a list of snapshots and an index, as pure `Timeline` functions;
  - the component's state as a `Board` class, whose methods (`SaveHistory`, `Undo`, `Redo`, `ClearCanvas`, the drawing handlers) update it in place and are proved against those functions.
- **`getCroppedCanvas`** (module `Crop`, on `Pixels`):
  - the nested scan of the alpha channel for the bounding box of the ink, as a method over the pixel `array`;
  - the 40-pixel padding clamped to the canvas.
- **`preprocessImage`** (module `Binarize`): the in-place loop that maps every pixel to black or white by its luminance and leaves alpha alone.
- **The recent-formulas list** (module `RecentFormulas`):
  - newest first, at most 20 entries;
  - results that mention "failed" or "unclear" are not saved;
  - entries can be deleted one at a time or all at once.
- **The preview strip** (module `Preview`): the delimiter removal applied to the LaTeX before KaTeX renders it.

Names that are not self-explanatory:

- A *snapshot* is the canvas's `ImageData`, kept abstract as a type parameter.
- A pixel buffer is a `seq<byte>` or an `array<byte>` of RGBA quadruples.
- A `string` is a sequence of Unicode characters, one `char` each. For text with no character outside the Basic Multilingual Plane this is the same as JavaScript's sequence of UTF-16 code units.

Two points of the code's order are easy to get wrong, and the model follows the code on both:

- **Fence order.** The code (services/ocr-worker.ts:36-46) removes the math wrapper first and the code fence second. So a fenced `$x$` keeps its dollars: see `Sanitizer.FencedFormulaKeepsDollars`.
- **Detectors.** The code has five detectors (repetition, backslash run, structural-character ratio, coordinate hallucination, `\text{` hallucination), followed by the salvage step. All of them are modelled, in the code's order.

## Model

| member | source | states |
|---|---|---|
| JsString.IsSpace | services/ocr-worker.ts:33 | the white space and line terminators of ECMAScript, which `trim` removes and `\s` matches |
| JsString.IsLineTerminator | services/ocr-worker.ts:49 | the characters that `.` in a regular expression does not match |
| JsString.StartsWith | services/ocr-worker.ts:36-46 | `startsWith`: the prefix of the text as long as the pattern is the pattern |
| JsString.EndsWith | services/ocr-worker.ts:36-46 | `endsWith`: the suffix of the text as long as the pattern is the pattern |
| JsString.Trim | services/ocr-worker.ts:33 | the result is the input minus leading and trailing ECMAScript white space, and nothing else: a slice whose outside characters are all white space, with no white space at either end |
| JsString.TrimIdempotent | services/ocr-worker.ts:88-90 | trimming a trimmed string changes nothing, so the repeated `trim` calls of lines 88 and 90 are harmless |
| JsString.TrimStart | services/ocr-worker.ts:33 | what is removed at the front is all white space, and what remains starts with a non-space or is empty |
| JsString.TrimEnd | services/ocr-worker.ts:33 | what is removed at the end is all white space, and what remains ends with a non-space or is empty |
| JsString.Clamp | services/ocr-worker.ts:37 | the argument clamping of `substring`: the result lies in `0..n`, and an argument already there is kept |
| JsString.Substring | services/ocr-worker.ts:37 | `substring` clamps both arguments, swaps them when the start exceeds the end, and in every case returns a slice of the string |
| JsString.IndexOf | services/ocr-worker.ts:67 | the first occurrence at or after `from`, or none: no earlier position matches |
| JsString.NotIncludesWithoutChar | services/ocr-worker.ts:67 | a string lacking some character of a pattern does not include the pattern |
| JsString.Split | services/ocr-worker.ts:68 | `split` with a string separator: joining the parts with the separator gives the input back, no part contains the separator, and the first cut is at the first occurrence (none when the separator does not occur) |
| JsString.SplitCutsLeftmost | services/ocr-worker.ts:68 | every cut is at the first occurrence of the separator in what is left of the text |
| JsString.Includes | services/ocr-worker.ts:67 | `includes`: `IndexOf` from 0 finds something (its meaning is stated by `JsString.IncludesIffOccurs`) |
| JsString.IncludesIffOccurs | services/ocr-worker.ts:73 | `includes` holds exactly when the pattern occurs at some position |
| JsString.Occurrences | services/ocr-worker.ts:73 | the number of positions at which a pattern occurs |
| JsString.SplitCount | services/ocr-worker.ts:73 | `split` on a separator that cannot overlap itself yields one more part than the separator has occurrences |
| JsString.CountChar | services/ocr-worker.ts:68-69 | the count of a character is at most the length, and zero exactly when the character is absent |
| JsString.SplitOnCharCount | services/ocr-worker.ts:68-69 | splitting on one character yields one more part than the character has occurrences |
| Sanitizer.Unwrap | services/ocr-worker.ts:36-44 | the unwrapped text is a contiguous piece of the trimmed text |
| Sanitizer.UnwrapDisplayMath | services/ocr-worker.ts:36-37 | `$$x$$` becomes `x`: the display-math test is tried before the inline one |
| Sanitizer.UnwrapInlineMath | services/ocr-worker.ts:38-39 | `$x$` becomes `x` unless it also reads as `$$…$$` |
| Sanitizer.UnwrapParens | services/ocr-worker.ts:40-41 | `\(x\)` becomes `x` |
| Sanitizer.UnwrapBrackets | services/ocr-worker.ts:42-43 | `\[x\]` becomes `x` |
| Sanitizer.UnwrapLoneDollars | services/ocr-worker.ts:36-39 | because `substring` swaps its arguments, `$` and `$$` come back unchanged and `$$$` becomes `$` |
| Sanitizer.StripFence | services/ocr-worker.ts:46 | removing the fence leaves a slice of the text |
| Sanitizer.StripFenceOnce | services/ocr-worker.ts:46 | a `latex` fence is removed once at the start and once at the end, and whatever lies inside is kept |
| Sanitizer.Prepare | services/ocr-worker.ts:33-46 | the text the detectors examine is a slice of the trimmed model output |
| Sanitizer.PreparePlain | services/ocr-worker.ts:33-46 | a trimmed text with no wrapper opener and no backtick is examined unchanged |
| Sanitizer.HasRepeatedUnit | services/ocr-worker.ts:49-50 | the test `/(.{3,})\1{3,}/`: some unit of three or more non-line-terminator characters is followed by at least three copies of itself |
| Sanitizer.RepeatedRunDetected | services/ocr-worker.ts:49-50 | any run of four or more back-to-back copies of a unit of at least three non-line-terminator characters fires the repetition detector |
| Sanitizer.RepetitionComesFirst | services/ocr-worker.ts:49-52 | a text the repetition detector fires on is reported as "Recognition unclear…", whatever the later detectors would say |
| Sanitizer.RepeatedUnitExample | services/ocr-worker.ts:49-52 | `abcde` written five times is reported as unclear |
| Sanitizer.HasBackslashRun | services/ocr-worker.ts:55 | the test `/\\{4,}/`: four backslashes in a row somewhere in the text |
| Sanitizer.BackslashRunFails | services/ocr-worker.ts:55-57 | four backslashes in a row give "Recognition failed. Please redraw…" unless a repetition was found first |
| Sanitizer.BackslashRunExample | services/ocr-worker.ts:55-57 | a text of four backslashes is reported as a failure |
| Sanitizer.IsStructural | services/ocr-worker.ts:60 | the class `[{}\\^_]` |
| Sanitizer.IsAlnum | services/ocr-worker.ts:61 | the class `[a-zA-Z0-9]` |
| Sanitizer.CountIf | services/ocr-worker.ts:60-61 | the count of matches of a character class is zero exactly when no character matches |
| Sanitizer.TooManyStructural | services/ocr-worker.ts:60-62 | more than twice as many characters of `[{}\\^_]` as letters and digits, in a text over 20 characters |
| Sanitizer.ParseAdvisoryExample | services/ocr-worker.ts:59-64 | a model output of 22 characters (braces, carets, underscores, plus and minus) with no letter or digit is reported as "Could not parse handwriting…" |
| Sanitizer.CoordinateHallucinationIff | services/ocr-worker.ts:66-70 | the coordinate detector fires exactly when the text contains `(x,y)`, is longer than 50, and holds at least three `=` |
| Sanitizer.CoordinateHallucination | services/ocr-worker.ts:66-70 | the coordinate detector as written, with `includes`, the length test and `split('=')`; its meaning is stated by `Sanitizer.CoordinateHallucinationIff` |
| Sanitizer.TextHallucination | services/ocr-worker.ts:73 | the `\text{` detector as written, with `includes` and `split`; its meaning is stated by `Sanitizer.TextHallucinationIff` |
| Sanitizer.TextTagOverlapFree | services/ocr-worker.ts:73 | `\text{` cannot overlap itself, so its occurrences are separate |
| Sanitizer.TextHallucinationIff | services/ocr-worker.ts:73 | the `\text{` detector fires exactly when `\text{` occurs at least four times |
| Sanitizer.Verdict | services/ocr-worker.ts:48-75 | whenever a detector fires, its message is one of the six advisory messages; these advisories are the texts of lines 51, 56, 63, 69, 74 and 84, kept as the constants `MsgUnclearStrokes`, `MsgFailedStrokes`, `MsgCouldNotParse`, `MsgFailedClearer`, `MsgUnclearSimplify` and `MsgTooLong` |
| Sanitizer.ShortPlainPasses | services/ocr-worker.ts:48-75 | a text under 12 characters without backslashes passes every detector |
| Sanitizer.IsDelimiter | services/ocr-worker.ts:80 | the class `[.,;]` of the salvage split |
| Sanitizer.BreaksAt | services/ocr-worker.ts:80 | a match of the salvage split pattern starts here: `.`, `,` or `;`, a double backslash, or `\text` |
| Sanitizer.FirstBreak | services/ocr-worker.ts:80 | where the first part of the split ends: at the first `.`, `,`, `;`, double backslash or `\text`, or at the end of the text, with no such match before it |
| Sanitizer.Salvage | services/ocr-worker.ts:78-85 | the result is the "too long" message or a trimmed clause of 6 to 199 characters |
| Sanitizer.SalvagedClause | services/ocr-worker.ts:78-85 | an over-long text yields either the "too long" message or a trimmed slice of 6 to 199 characters containing no `.`, `,` or `;` |
| Sanitizer.SalvageUpToComma | services/ocr-worker.ts:78-83 | when the first delimiter is a comma at a position between 6 and 199 and the text before it is trimmed, that text is the result |
| Sanitizer.IsTrailingArtifact | services/ocr-worker.ts:88 | the text matches `\s*\\?` as a whole: white space, then at most one backslash at the very end |
| Sanitizer.ArtifactStart | services/ocr-worker.ts:88 | the leftmost position from which the rest of the text matches `\s*\\?` |
| Sanitizer.StripTrailingBackslash | services/ocr-worker.ts:88-90 | trailing white space followed by one backslash is removed |
| Sanitizer.StripTrailingSpace | services/ocr-worker.ts:88-90 | trailing white space alone is removed |
| Sanitizer.StripKeepsSecondBackslash | services/ocr-worker.ts:88-90 | of a trailing double backslash only one backslash goes |
| Sanitizer.StripArtifacts | services/ocr-worker.ts:88-90 | the stripped text has no white space at either end |
| Sanitizer.StripArtifactsShape | services/ocr-worker.ts:88-90 | the stripped text is a trimmed slice of its input |
| Sanitizer.SanitizeLatex | services/ocr-worker.ts:32-91 | `sanitizeLatex`: trim, unwrap, unfence, the detectors in order, then salvage or the artifact strip; no result starts or ends with white space (the full shape is `Sanitizer.SanitizeShape`) |
| Sanitizer.SanitizeShape | services/ocr-worker.ts:32-91 | every result is either one of the six advisory messages or a slice of the trimmed model output, and no result starts or ends with white space |
| Sanitizer.ShortFormulaResult | services/ocr-worker.ts:32-91 | a short formula without backslashes is returned as unwrapped and unfenced |
| Sanitizer.InlineFormula | services/ocr-worker.ts:32-91 | a short formula in single dollars comes back without them |
| Sanitizer.BracketFormula | services/ocr-worker.ts:32-91 | a short formula in `\[ \]` comes back without them |
| Sanitizer.FencedFormula | services/ocr-worker.ts:46 | a short formula in a `latex` fence comes back without the fence |
| Sanitizer.InlineMathExample | services/ocr-worker.ts:38-39 | `$x^2$` gives `x^2` |
| Sanitizer.DisplayBracketExample | services/ocr-worker.ts:42-43 | `\[y=mx+b\]` gives `y=mx+b` |
| Sanitizer.LoneDollarExample | services/ocr-worker.ts:36-39 | a lone `$` is returned as it is |
| Sanitizer.FencedFormulaKeepsDollars | services/ocr-worker.ts:36-46 | a fenced `$x$` gives `$x$`: the wrapper test sees the fence, not the dollars |
| UndoHistory.Valid | components/FormulaTool.tsx:16-17 | the history is either empty with index -1, as it starts, or its index points into the list, as every save leaves it (line 93) |
| UndoHistory.CanUndo | components/FormulaTool.tsx:98 | the undo guard, index above 0; the undo button is disabled exactly when it fails (line 424) |
| UndoHistory.CanRedo | components/FormulaTool.tsx:110 | the redo guard, index below the last position; the redo button is disabled exactly when it fails (line 434) |
| UndoHistory.Initial | components/FormulaTool.tsx:16-17 | the history starts empty, with index -1 |
| UndoHistory.Save | components/FormulaTool.tsx:89-93 | saving keeps the snapshots up to the index, appends the new one and points at it; redo is then disabled |
| UndoHistory.UndoStep | components/FormulaTool.tsx:97-107 | undo moves the index back by one when the index is above 0, and otherwise changes nothing; the snapshots are untouched |
| UndoHistory.RedoStep | components/FormulaTool.tsx:109-119 | redo moves the index forward by one when it is below the last position, and otherwise changes nothing |
| UndoHistory.Current | components/FormulaTool.tsx:103 | the snapshot at the index, which undo and redo paint (lines 103 and 115) |
| UndoHistory.UndoThenRedo | components/FormulaTool.tsx:97-119 | redo after an enabled undo restores the timeline |
| UndoHistory.RedoThenUndo | components/FormulaTool.tsx:97-119 | undo after an enabled redo restores the timeline |
| UndoHistory.UndoRestoresPrevious | components/FormulaTool.tsx:102-103 | undo shows the snapshot before the current one, and the undone snapshot stays available to redo |
| UndoHistory.SaveAfterUndoForgetsFuture | components/FormulaTool.tsx:90-93 | saving after an undo drops the undone snapshot: the list is cut at the index and redo is disabled |
| UndoHistory.UndoTimesIndex | components/FormulaTool.tsx:97-107 | `k` undos step back `k` snapshots and stop at the first |
| UndoHistory.SaveAllAppends | components/FormulaTool.tsx:89-93 | saves made at the end of the list only append |
| UndoHistory.SeededUndoReachesBlank | components/FormulaTool.tsx:58-61 | seeding with the blank canvas puts it at index 0, so after any number of strokes as many undos show the blank canvas again, and undo is then disabled |
| UndoHistory.Board.constructor | components/FormulaTool.tsx:16-17 | a new board has an empty history, index -1, and no stroke in progress |
| UndoHistory.Board.SaveHistory | components/FormulaTool.tsx:85-95 | the board's history becomes `Save` of the old one with the current canvas |
| UndoHistory.Board.EnterDrawing | components/FormulaTool.tsx:47-63 | entering drawing mode seeds the history with the blank canvas only when the history is empty |
| UndoHistory.Board.StartDrawing | components/FormulaTool.tsx:121-131 | a stroke begins; neither the canvas nor the history changes |
| UndoHistory.Board.Draw | components/FormulaTool.tsx:133-139 | the canvas changes only while a stroke is in progress |
| UndoHistory.Board.EndDrawing | components/FormulaTool.tsx:141-146 | a stroke in progress is ended and saved; without one, nothing changes |
| UndoHistory.Board.Undo | components/FormulaTool.tsx:97-107 | the board's timeline becomes `UndoStep` of the old one, and the canvas shows the snapshot at the new index |
| UndoHistory.Board.Redo | components/FormulaTool.tsx:109-119 | the board's timeline becomes `RedoStep` of the old one, and the canvas shows the snapshot at the new index |
| UndoHistory.Board.ClearCanvas | components/FormulaTool.tsx:163-171 | the canvas is cleared, the cleared canvas is saved as a new snapshot, and the LaTeX is emptied |
| Pixels.Offset | components/FormulaTool.tsx:214 | the index `(y * width + x) * 4 + c` of channel `c` of a pixel in the row-major RGBA buffer |
| Pixels.Alpha | components/FormulaTool.tsx:214 | the alpha byte of a pixel, read at offset 3; a read past the end gives 0, as `undefined > 0` is false |
| Pixels.Opaque | components/FormulaTool.tsx:215 | the test `alpha > 0`: the pixel has been drawn on |
| Crop.Extend | components/FormulaTool.tsx:215-219 | the grown box contains the new pixel and the old box |
| Crop.ScanRow | components/FormulaTool.tsx:213-222 | scanning one row keeps the box covering every opaque pixel seen so far, with an opaque pixel on each side |
| Crop.ScanBox | components/FormulaTool.tsx:207-225 | ink is found exactly when some pixel has non-zero alpha, and the box is then the tightest box around all such pixels |
| Crop.ScanComplete | components/FormulaTool.tsx:212-225 | once every row is scanned, the flag and the box mean "some pixel is opaque" and "the tight box" |
| Crop.TightBoxOnCanvas | components/FormulaTool.tsx:212-223 | the tight box lies inside the canvas |
| Crop.TightBoxUnique | components/FormulaTool.tsx:209-223 | there is only one tight box |
| Crop.Pad | components/FormulaTool.tsx:228-232 | 40 pixels of padding on every side, clamped to the canvas; its bounds are stated by `Crop.PadBounds` |
| Crop.CroppedWidth | components/FormulaTool.tsx:234 | the width of the cropped canvas, `maxX - minX` after padding |
| Crop.CroppedHeight | components/FormulaTool.tsx:235 | the height of the cropped canvas, `maxY - minY` after padding |
| Crop.PadBounds | components/FormulaTool.tsx:228-235 | the padded rectangle stays on the canvas and contains the box; the margins are 40 pixels left and top and 39 right and bottom (the right and bottom edges are exclusive), each exact unless the canvas edge is nearer, and then the edge is the canvas edge |
| Crop.SinglePixel | components/FormulaTool.tsx:209-232 | a single drawn pixel crops to the 80-by-80 square around it (40 pixels before it and 39 after it on each axis), less what falls off the canvas; the cropped canvas is 80 wide and 80 high when the canvas allows |
| Crop.CropRegion | components/FormulaTool.tsx:203-235 | `null` exactly when nothing was drawn; otherwise the padded tight box, a non-empty rectangle on the canvas containing every opaque pixel |
| Binarize.Luminance | components/FormulaTool.tsx:188-192 | the luminance `0.299r + 0.587g + 0.114b`, scaled by 1000 onto integers, compared with 180000 |
| Binarize.Dark | components/FormulaTool.tsx:183-192 | the test `luminance < 180`, as `Luminance` below the constant `Threshold` (180000); false when the pixel is cut short by the end of the buffer, since a missing channel makes the luminance `NaN` |
| Binarize.BinarizedByte | components/FormulaTool.tsx:188-196 | what one byte holds after the loop: alpha kept, red, green and blue 0 when the pixel is dark and 255 otherwise |
| Binarize.Binarized | components/FormulaTool.tsx:182-197 | the whole buffer after the loop, of the same length as before |
| Binarize.BinarizeInPlace | components/FormulaTool.tsx:182-197 | after the loop the buffer equals `Binarized` of the original buffer, including the partial last pixel of a buffer whose length is not a multiple of 4 |
| Binarize.PixelBytes | components/FormulaTool.tsx:192-196 | red, green and blue of a pixel receive the same value, and alpha keeps its own |
| Binarize.BinarizedPixel | components/FormulaTool.tsx:188-196 | each whole pixel becomes all 0 or all 255 in red, green and blue, 0 exactly when its luminance is below 180, and keeps its alpha |
| Binarize.BinarizedKeepsAlpha | components/FormulaTool.tsx:194-196 | every alpha byte is unchanged |
| Binarize.BinarizeIdempotent | components/FormulaTool.tsx:182-197 | binarising a whole-pixel buffer twice gives the same as once |
| RecentFormulas.Take | components/FormulaTool.tsx:289 | `slice(0, n)` keeps the first `min(len, n)` elements; the list uses it with the constant `Capacity`, 20 (lines 289 and 328) |
| RecentFormulas.Recordable | components/FormulaTool.tsx:282 | the filter of lines 282 and 321: the result is not empty and includes neither "failed" nor "unclear" |
| RecentFormulas.Record | components/FormulaTool.tsx:282-289 | a result that passes the filter goes in front, followed by the old entries cut to 20; any other result leaves the list unchanged |
| RecentFormulas.RecordBounded | components/FormulaTool.tsx:289 | the list never grows beyond 20 entries |
| RecentFormulas.RecordAll | components/FormulaTool.tsx:282-289 | a run of conversions, oldest first, each through `Record` |
| RecentFormulas.NewestFirst | components/FormulaTool.tsx:289 | the entries of a run of conversions, newest first: entry `j` is conversion `n - 1 - j` |
| RecentFormulas.RecordAllSuccessful | components/FormulaTool.tsx:282-289 | after a run of successful conversions the list is the newest 20 of the new and old entries, newest first |
| RecentFormulas.TakeCons | components/FormulaTool.tsx:289 | cutting to 20 before and after putting an entry in front is the same as cutting once |
| RecentFormulas.TwentyOneConversions | components/FormulaTool.tsx:282-289 | after 21 successful conversions into an empty list the 20 newest remain, newest first, and the oldest is dropped |
| RecentFormulas.Remove | components/FormulaTool.tsx:303-305 | removing never lengthens the list |
| RecentFormulas.RemoveMembers | components/FormulaTool.tsx:304 | after removal the list holds exactly the entries with a different id |
| RecentFormulas.RemoveAppend | components/FormulaTool.tsx:304 | removal distributes over concatenation, so the remaining entries keep their order |
| RecentFormulas.RemoveAbsent | components/FormulaTool.tsx:304 | removing an id that is absent changes nothing |
| RecentFormulas.RemoveIdempotent | components/FormulaTool.tsx:304 | removing an id twice is the same as removing it once |
| RecentFormulas.Apply | components/FormulaTool.tsx:282-305 | one event as written: a conversion through `Record`, a deletion through `Remove`, or Clear All |
| RecentFormulas.Replay | components/FormulaTool.tsx:282-305 | a sequence of events, applied in order |
| RecentFormulas.ApplyWellformed | components/FormulaTool.tsx:282-305 | as written, each event keeps the list within 20 entries, every one of them recorded from a result that mentions neither "failed" nor "unclear" |
| RecentFormulas.ReplayWellformed | components/FormulaTool.tsx:282-305 | as written, so does any sequence of events |
| RecentFormulas.ReplayClearAll | components/FormulaTool.tsx:605 | Clear All empties the list, whatever came before it |
| RecentFormulas.AdvisoriesRecordedAsWritten | components/FormulaTool.tsx:282 | as written, the filter accepts the "Could not parse…" and "Output too long…" advisories |
| RecentFormulas.AdvisoriesRejectedAsWritten | components/FormulaTool.tsx:282 | the other four advisories are rejected by the filter |
| RecentFormulas.ParseAdvisoryRecorded | components/FormulaTool.tsx:282-289 | a concrete drawing that the sanitizer reports as unparseable has its advisory saved at the front of the list |
| RecentFormulas.RecordIntended | components/FormulaTool.tsx:282-289 | the corrected filter: a result is saved only when it passes the written filter and is not an advisory |
| RecentFormulas.RecordIntendedAgrees | components/FormulaTool.tsx:282-289 | the corrected filter agrees with the written one on every result except the advisories, which it never saves |
| RecentFormulas.ApplyIntended | components/FormulaTool.tsx:282-305 | one event of the corrected program: conversions go through `RecordIntended` |
| RecentFormulas.ReplayIntended | components/FormulaTool.tsx:282-305 | a sequence of events of the corrected program |
| RecentFormulas.ApplyIntendedWellformed | components/FormulaTool.tsx:282-305 | in the corrected program, each event keeps the list within 20 entries, none of them an advisory |
| RecentFormulas.ReplayIntendedWellformed | components/FormulaTool.tsx:282-305 | in the corrected program, so does any sequence of events |
| RecentFormulas.IntendedRecordsOnlyOutput | components/FormulaTool.tsx:282-289 | with the corrected filter, every saved text is a piece of the model's trimmed output and never an advisory |
| Preview.StartsWithDollar | components/FormulaTool.tsx:68 | the leading alternative `\$` |
| Preview.StartsWithOpenBracket | components/FormulaTool.tsx:68 | the leading alternatives `\\\[` and `\\\(` |
| Preview.StripLeading | components/FormulaTool.tsx:68 | exactly one token is removed from the front: 1 character for `$`, 2 for `\[` or `\(`, otherwise none |
| Preview.EndsWithDollar | components/FormulaTool.tsx:68 | the trailing alternative `\$` |
| Preview.EndsWithCloseBracket | components/FormulaTool.tsx:68 | the trailing alternatives `\\\]` and `\\\)` |
| Preview.EndsWithSpaceDoubleDollar | components/FormulaTool.tsx:68 | the trailing alternative ` \$\$`, with its space |
| Preview.EndsWithSpaceDollar | components/FormulaTool.tsx:68 | a text ending in a space and a dollar: wrapped in single dollars, it ends in ` $$` and loses three characters instead of one |
| Preview.StripTrailing | components/FormulaTool.tsx:68 | exactly one token is removed from the end: 3 characters for ` $$`, 2 for `\]` or `\)`, 1 for `$`, otherwise none |
| Preview.Stripped | components/FormulaTool.tsx:68 | both regular-expression replacements of line 68, before the trim; never longer than the LaTeX |
| Preview.StrippedIsSlice | components/FormulaTool.tsx:68 | before trimming, at most 2 characters go at the front and 3 at the back, and nothing from the middle |
| Preview.PreviewText | components/FormulaTool.tsx:68 | the preview text is a trimmed slice of the LaTeX |
| Preview.DisplayBracketsUnwrapped | components/FormulaTool.tsx:68 | `\[x\]` and `\(x\)` preview as `x`, trimmed |
| Preview.InlineDollarsUnwrapped | components/FormulaTool.tsx:68 | `$x$` previews as `x`, trimmed, unless `x` ends with a space and a dollar |
| Preview.DoubleDollarsAsWritten | components/FormulaTool.tsx:68 | as written, `$$x$$` previews as `$x$` whenever `x` does not end in a space |
| Preview.DoubleDollarsExample | components/FormulaTool.tsx:68 | `$$x$$` previews as `$x$` |
| Preview.StartsWithDoubleDollar | components/FormulaTool.tsx:68 | the leading alternative `\$\$`, which the corrected strip tries first |
| Preview.EndsWithDoubleDollar | components/FormulaTool.tsx:68 | `$$` at the end, with or without a space before it, as the corrected strip removes it |
| Preview.StripLeadingIntended | components/FormulaTool.tsx:68 | the corrected leading strip: 2 characters for `$$`, `\[` or `\(`, 1 for a single `$`, otherwise none |
| Preview.StripTrailingIntended | components/FormulaTool.tsx:68 | the corrected trailing strip: 2 characters for `$$`, `\]` or `\)`, 1 for a single `$`, otherwise none |
| Preview.StrippedIntended | components/FormulaTool.tsx:68 | the corrected strip of both ends, before the trim; never longer than the LaTeX |
| Preview.PreviewTextIntended | components/FormulaTool.tsx:68 | the corrected strip, with `$$` tried before `$` at both ends, also yields trimmed text |
| Preview.DoubleDollarsIntended | components/FormulaTool.tsx:68 | with the corrected strip, every `$$x$$` previews as `x`, trimmed |
| Preview.InlineDollarsIntended | components/FormulaTool.tsx:68 | with the corrected strip, `$x$` still previews as `x` when `x` has no dollar at either end |

## Left out

- The worker's message handling, model loading and inference (services/ocr-worker.ts outside `sanitizeLatex`, and services/localAI.ts) are foreign calls into the model runtime. Only the text they produce is modelled.
- InteractiveBackground.tsx is decoration and is not part of this model.
- Canvas rendering is not modelled: strokes, `putImageData`, `clearRect`, and the white fill and `drawImage` copy of the cropped canvas. A snapshot is an abstract value, and the drawn surface is a parameter of `Board.Draw`. `Crop.CropRegion` stops at the rectangle that would be copied.
- The mouse and touch position (`getPos`) is a floating-point computation and is left out.
- `Math.random` ids, `Date.now` timestamps, image data URLs, the clipboard, file upload, `localStorage` persistence and KaTeX rendering are left out. Ids, timestamps and images are parameters.
- React behaviour is not modelled. State updates are taken to apply at once and in order. Batching, stale closures and the effect rerun on brush changes (lines 47-63) are left out.
- The null-canvas and missing-context early returns are not modelled. There, `saveHistory`, `undo` and `redo` do nothing, and `getCroppedCanvas` returns the canvas itself.
- Binarize.Luminance: the source compares the floating-point sum `0.299r + 0.587g + 0.114b` with 180. The model compares `299r + 587g + 114b` with 180000 in integers, so a sum that rounding puts exactly at the threshold may classify differently.
- JsString: a `char` is a Unicode scalar value, not a UTF-16 code unit. The model covers text with no character outside the Basic Multilingual Plane. A lone surrogate cannot be represented, and a character outside that plane counts 1 here where JavaScript's `.length` counts 2; that would change the `> 20`, `> 50` and `> 500` length tests, the `.{3,}` unit of the repetition test, and the salvage bounds.
- Sanitizer.HasRepeatedUnit: the regular expression `/(.{3,})\1{3,}/` is modelled by its meaning, not by a backtracking matcher.
- RecentFormulas.Record: the drawing path (lines 321-328, `handleProcessWithImage`) uses the same filter and cap as the upload path (lines 282-289), so a single function models both.

## Findings

| source | as written | input that shows it | evidently intended | confidence | as-written member | corrected member |
|---|---|---|---|---|---|---|
| components/FormulaTool.tsx:321 | a result is saved unless it mentions "failed" or "unclear"; the upload path at line 282 has the same filter | a drawing that the model reads as 22 characters of braces, carets, underscores, plus and minus, with no letter or digit, gives "Could not parse handwriting. Try drawing larger symbols.", which is saved as a formula; "Output too long…" is saved the same way | no sanitizer advisory is ever saved as a recent formula | not executed | RecentFormulas.ParseAdvisoryRecorded | RecentFormulas.IntendedRecordsOnlyOutput |
| components/FormulaTool.tsx:68 | the leading pattern tries `$` before `$$`, and the trailing pattern removes `$$` only after a space | a LaTeX box holding `$$x$$` hands `$x$` to KaTeX | a `$$…$$` wrapper is removed whole, so `x` is rendered | not executed | Preview.DoubleDollarsExample | Preview.DoubleDollarsIntended |
