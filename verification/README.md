# script-maker: a Dafny model of the page's core

script-maker is a single React page (`App.tsx`). It does three things:

- It turns speaker notes pasted as one block of text into a Markdown document with one numbered section per slide.
- It sends that document to a text-generation service and shows the rewritten text.
- It pulls a presentation ID out of a Google Slides URL and shows a Google Apps Script program, with that ID filled in, that dumps the presentation's notes.

This project models that core as pure Dafny functions and proves what each one promises. The modules are:

- `Results` holds the `Option` and `Result` wrappers.
- `Text` models JavaScript's `String.prototype.trim`. It strips the code points of the WhiteSpace and LineTerminator productions in sections 12.2 and 12.3 of ECMA-262.
- `Splitting` models `split` on a fixed delimiter, which cuts at leftmost occurrences that never overlap, and `join` with the same delimiter.
- `Decimal` renders the slide number the way a template literal does.
- `Notes` models the converter inside `handleConvert`:
  - it splits on `\n---\n`;
  - it drops the pieces that are blank after trimming;
  - it renders each survivor as `## スライド N\n\n<trimmed text>`;
  - it joins the blocks with `\n\n---\n\n`;
  - it reports the two errors, blank input and no surviving slide.
- `SlideId` models the regular expression `/presentation\/d\/([a-zA-Z0-9_-]+)/`. The match is the leftmost occurrence of the marker that has at least one ID character after it. The capture is the longest run of ID characters after that marker.
- `Script` models the `gasCode` template, which is the fixed Apps Script text with the ID interpolated inside a string literal and then trimmed. It also defines a reader that recovers the literal's contents from a script. That reader is the template's inverse.
- `App` models the page's state record (`rawNotes`, `slideUrl`, `markdownOutput`, `enhancedOutput`, `isLoading`, `error`, `modalSlideId`). Each handler is a transition on that record:
  - `handleConvert`;
  - `handleEnhance`, in two halves: before the `await`, and after the service call settles;
  - `handleExtractNotes`;
  - closing the dialog.

  `App` also defines an invariant that every event preserves.

The service call and the browser are not modelled. The outcome of a call is an input to the transition that resumes after the `await`: either `Resolved(text)`, or `Rejected(message)`, where the message is present when an `Error` was thrown.

Two facts about the code are worth stating up front:

- The headings are `## スライド N` (`App.tsx:175`).
- A rewrite result is applied whenever its call settles (`App.tsx:192-193`), even if the notes were converted again in the meantime. `App.StaleResultApplied` shows such a result landing next to a newer conversion it was not computed from.

`Text.IsWhitespace` is the exact ECMAScript set. The proofs use only a few facts about it:

- line feed and space are in the set;
- the ASCII letters, digits, `-`, `#`, `"` and `}` are not.

## Model

| member | source | states |
|---|---|---|
| Text.Trim | App.tsx:162 | `s.trim()` has no whitespace at either end, is no longer than `s`, and is empty exactly when `s` is all whitespace |
| Text.TrimUnique | App.tsx:175 | trimming a whitespace run, a core without whitespace at its ends, and another whitespace run gives back exactly that core |
| Text.TrimSplits | App.tsx:175 | every string is leading whitespace, then its trim, then trailing whitespace, with nothing lost |
| Text.TrimIdempotent | App.tsx:162 | trimming twice is trimming once |
| Splitting.FirstIndex | App.tsx:167 | the delimiter position used by `split` is an occurrence with none before it, and there is none exactly when the string does not contain the delimiter |
| Splitting.Split | App.tsx:167 | `split` always yields at least one piece |
| Splitting.SplitJoin | App.tsx:167 | splitting is lossless: joining the pieces with the delimiter gives back the input |
| Splitting.SplitIsSplitOf | App.tsx:167 | the split is a left-to-right cut: no piece contains the delimiter, and each cut is at the leftmost occurrence still available |
| Splitting.SplitUnique | App.tsx:167 | any left-to-right cut of the input at the delimiter is the one `split` computes |
| Splitting.SplitCharacterized | App.tsx:167 | a sequence of pieces is the split of `s` if and only if it is a left-to-right cut of `s` |
| Splitting.FirstIndexAfterPiece | App.tsx:167 | in a cut that starts with piece `p`, the leftmost delimiter is the one right after `p` |
| Decimal.Show | App.tsx:175 | `${index + 1}` is a canonical decimal numeral whose value is the number |
| Decimal.ShowCanonical | App.tsx:175 | every canonical numeral is the rendering of the number it denotes, so distinct slide numbers get distinct numerals |
| Decimal.ValueBound | App.tsx:175 | a numeral of k digits denotes less than 10^k, and at least 10^(k-1) when it has no leading zero |
| Notes.SurvivorIndices | App.tsx:167 | the filtered slides are exactly the non-blank pieces, in ascending order of their position, with every non-blank piece kept |
| Notes.ListingUnique | App.tsx:167 | there is only one ascending listing of the non-blank pieces, so the filter neither reorders nor duplicates |
| Notes.NoSurvivors | App.tsx:167-169 | no slide survives exactly when every piece is blank |
| Notes.SurvivorsNonBlank | App.tsx:167 | no surviving slide is blank |
| Notes.Render | App.tsx:174-176 | the rendered document starts with the first slide's heading |
| Notes.Convert | App.tsx:157-179 | the blank-input error is reported exactly when the notes are all whitespace, and the no-slides error exactly when they are not but every piece is blank; success starts with `## スライド 1` |
| Notes.ConvertRenders | App.tsx:167-176 | on success the document is the join, with `\n\n---\n\n`, of one block per non-blank piece in order; block t is `## スライド t+1`, a blank line, and the trimmed piece |
| Notes.BlocksOfSurvivors | App.tsx:167-175 | block t of the filtered pieces is `## スライド t+1`, a blank line, and the trimmed non-blank piece listed at position t |
| Notes.ConvertBoundaries | App.tsx:174-178 | the document starts with the first heading, ends with the last slide's trimmed text, and does not end with a separator |
| Notes.RenderEndsWithLastSlide | App.tsx:176 | the rendered document ends with the last slide's trimmed text |
| Notes.RenderNoTrailingSeparator | App.tsx:176 | the join leaves no separator after the last block |
| Notes.JoinStartsWithFirst | App.tsx:176 | a join starts with its first piece |
| Notes.JoinEndsWithLast | App.tsx:176 | a join ends with its last piece |
| Notes.AscendingUnique | App.tsx:167 | two strictly ascending index lists with the same members are equal |
| Notes.ConvertWithoutDelimiter | App.tsx:167-178 | notes without the delimiter that are not blank become the single block `## スライド 1`, a blank line, and the trimmed notes |
| Notes.RenderOne | App.tsx:174-176 | one slide renders as the first heading followed by its trimmed text |
| Notes.RenderTwo | App.tsx:174-176 | two slides render as two numbered blocks joined by the separator |
| Notes.JoinedNotesSplitBack | App.tsx:167 | notes that are joined with the delimiter, where no note contains the delimiter and none but the last ends with `\n---`, split back into the same notes |
| Notes.NoDelimiterAcrossJoin | App.tsx:167 | a note that neither contains the delimiter nor ends with `\n---` cannot start a delimiter that runs into the next one |
| Notes.ConvertOf | App.tsx:167-178 | non-blank notes with at least one surviving slide convert to the rendering of those slides |
| Notes.TwoSlidePieces | App.tsx:167 | `Point one.\n---\nPoint two.` splits into its two notes |
| Notes.ConvertTwoSlides | App.tsx:157-179 | that text converts to two numbered blocks joined by the separator |
| Notes.TwoSlideSurvivors | App.tsx:167 | both notes of `Point one.\n---\nPoint two.` survive the filter |
| Notes.SurvivorsOfTwo | App.tsx:167 | two non-empty segments with no surrounding whitespace are both kept, in order |
| Notes.ConvertTwo | App.tsx:157-179 | input that starts with text and keeps two trimmed segments converts to `## スライド 1` and `## スライド 2` blocks joined by the separator |
| Notes.ConvertLoneDelimiter | App.tsx:167-170 | a lone `\n---\n` is not blank, yet it yields the no-slides error, not the blank-input error |
| Notes.SharedLineFeedPieces | App.tsx:167 | in `\n---\n---\n` the two delimiters would share a line feed, so only the first one cuts |
| Notes.ConvertSharedLineFeed | App.tsx:157-179 | that text converts to one slide whose text is `---` |
| SlideId.RunEnd | App.tsx:148 | the greedy `+` stops at the first character outside `[A-Za-z0-9_-]` |
| SlideId.FirstMatchFrom | App.tsx:148-149 | the scan finds the leftmost marker that is followed by an ID character, and there is none when it finds none |
| SlideId.ExtractId | App.tsx:148-151 | no ID exactly when no marker is followed by an ID character; otherwise the ID is non-empty, made only of ID characters, starts after the leftmost such marker, and is the longest such run |
| SlideId.CaptureUnique | App.tsx:148 | at a given marker the maximal capture is unique |
| SlideId.CaptureEndsRun | App.tsx:148 | a maximal capture ends where the run of ID characters ends |
| SlideId.ExtractIdComplete | App.tsx:148-151 | any maximal capture after the leftmost matching marker is what the extractor returns |
| SlideId.ExtractFromLink | App.tsx:148-151 | text without a marker start, then the marker, then an ID, then a non-ID character or the end yields exactly that ID |
| SlideId.ExtractFromEditLink | App.tsx:148-151 | a `docs.google.com/presentation/d/<id>/edit` link yields `<id>` |
| SlideId.ExtractSkipsBareMarker | App.tsx:148 | a marker with no ID character after it is skipped in favour of a later one |
| SlideId.NoMatchWithoutMarkerStart | App.tsx:148-153 | text in which `p` is never followed by `r` yields no ID |
| SlideId.ExtractRejectsDocumentLink | App.tsx:148-153 | a `document/d/` link yields no ID |
| Script.ScriptEnds | App.tsx:46-79 | the script text starts with `f` and ends with `}`, so trimming removes only the template's framing newlines |
| Script.TrimFramed | App.tsx:46-79 | trimming a framed text removes exactly the framing newlines when its ends are not whitespace |
| Script.GasCodeIsTrimmedTemplate | App.tsx:46-79 | the script is the trimmed template, and the ID is its only variable part |
| Script.UpToQuote | App.tsx:49 | the literal reader returns the longest prefix without a quote, stopping at the first quote |
| Script.PresentationIdOf | App.tsx:49 | the reader only succeeds on a script that starts with the fixed head, and only yields a literal body with no quote, backslash or line terminator; a body with an escape is not read |
| Script.UpToQuoteStops | App.tsx:49 | reading a quote-free text followed by a quote gives back exactly that text |
| Script.UpToQuoteAppend | App.tsx:49 | reading up to the first quote passes over a quote-free prefix unchanged |
| Script.ReadBackFramed | App.tsx:49 | the head, a text with no quote, backslash or line terminator, and a tail starting with a quote read back as that text |
| Script.ScriptRoundTrip | App.tsx:46-79 | for a value with no quote, backslash or line terminator, reading the literal back from the script gives the value: nothing breaks out of the literal |
| Script.IdIsPlain | App.tsx:148 | every extracted ID is such a value |
| Script.ExtractedIdRoundTrip | App.tsx:146-151 | the script generated for an extracted ID reads back as that ID |
| Script.QuoteCutsLiteral | App.tsx:49 | a quote inside the interpolated value, with no escape or line break before it, ends the literal there |
| Script.QuoteBreaksOut | App.tsx:49 | for a value whose first quote has no escape or line break before it, the literal closes at that quote; only the regex's character class keeps this from happening |
| Script.EscapeCutsRead | App.tsx:49 | a backslash before the first quote after the head leaves the literal unread |
| Script.EscapeInLiteral | App.tsx:49 | a backslash in the interpolated value before any quote leaves the literal unread |
| Script.EscapeNotRead | App.tsx:46-79 | the script for a value with a backslash before any quote reads back as no value |
| App.Convert | App.tsx:157-179 | convert clears the rewritten text and changes nothing else but the output and the error; the blank-input message appears exactly for all-whitespace notes, and the no-slides message exactly for the converter's no-slides error; on error the output is empty, and otherwise it is the converted document |
| App.EnhanceStart | App.tsx:181-188 | with no converted notes only the error is set and no request is made; otherwise loading starts, the error and the rewritten text are cleared, and the converted notes are sent |
| App.EnhanceFinish | App.tsx:190-202 | loading ends; a resolved call sets the rewritten text to the service's text and keeps the error; a rejection keeps the rewritten text and sets the error to the message of an `Error`, or to the unknown-error message for anything else |
| App.Enhance | App.tsx:181-203 | a whole enhance click with nothing in between either only sets the error, or ends with loading off and the converted notes untouched; a resolved call sets the rewritten text and clears the error, and a rejection clears the rewritten text and sets an error |
| App.ExtractNotes | App.tsx:146-155 | with an ID in the URL, the error is cleared and the dialog gets that ID; otherwise the invalid-URL message is shown, the dialog is unchanged, and the URL has no match |
| App.InitialInv | App.tsx:135-144 | the initial state satisfies the invariant, with nothing loading, no error and no dialog |
| App.StepInv | App.tsx:146-224 | every event keeps the invariant: the dialog only holds a well-formed ID, nothing is shown as rewritten while loading, and converted notes start with the first heading |
| App.RunInv | App.tsx:146-224 | every sequence of events keeps the invariant |
| App.LoneDelimiterMessage | App.tsx:167-170 | notes that are a lone delimiter get the no-slides message and leave both outputs empty |
| App.ConvertIdempotent | App.tsx:157-179 | converting twice is converting once |
| App.StaleResultApplied | App.tsx:181-203 | a request still in flight when new notes are converted is not cancelled, and its text is shown next to the new conversion |

## Left out

- Rendering, tabs, the dialog's markup and the disabling of buttons (`App.tsx:212-333`) are not modelled. A disabled button only removes events, so the invariant proofs cover the enabled and disabled cases alike.
- Copying to the clipboard and the two-second "copied" timers (`App.tsx:81-86`, `App.tsx:205-210`) are not modelled. They do not touch the modelled state.
- The text-generation service (`services/geminiService.ts`) is not part of this model. Its call is the `Response` input to `App.EnhanceFinish`, and the messages it throws are whatever `Rejected` carries.
- What the generated Apps Script does when it runs inside Google's runtime is not modelled. Only its text is.
- App.EnhanceFinish: a settling call is not tied to the click that issued it, because the handler itself keeps no request identity. A `Settle` event may therefore arrive at any time in `App.Step`.
- Script.PresentationIdOf: escape sequences in a JavaScript string literal are not interpreted. The reader yields no value for a literal body containing a backslash, so it says nothing about what JavaScript reads from such a body. No extracted ID contains a backslash (`Script.IdIsPlain`).
- App.Enhance: an empty text from the service sets the rewritten text to `""`, and the page then shows neither a text nor an error (`App.tsx:304`, `App.tsx:319`). The model sets the fields and does not model what is displayed.
- Text.Trim: code points are Dafny `char`s, which are Unicode scalar values. Lone surrogates in a JavaScript string are not modelled.
