# ScrabbleScholar front end, modelled in Dafny

ScrabbleScholar is a React front end over a generative-AI backend. It has four
tool panels: Word Finder, Word Validator, Board Analyzer and AI Chat. It also
has a light/dark theme switch. The browser-side logic is modelled and proved
here:

- **Markdown renderer** (`Markdown`, `markdown.dfy`). The board analyser's
  renderer splits the text on line feeds. It rewrites each line: headings,
  then non-greedy `**bold**` and `*italic*` substitution, then list items and
  paragraphs. It wraps each run of list lines in `<ul>`...`</ul>`.
  - The rendering loop (`RenderMarkdown`) is proved equal to a stateless
    definition. That definition reads each line through `Classify`: whether
    it is a list line, and its rewrite.
  - That definition is proved to keep the list tags balanced and never nested.
  - It is proved to emit every line's markup in order.
- **Panel lifecycles** (`BoardAnalysis`, `Chat`, `WordSearch`, `Validation`).
  - Each panel is a class whose fields are the component's state variables.
  - Each async handler is split in two:
    - `Begin*` does the validation and the state changes made before the await. It returns the request sent to the backend.
    - `Complete*` takes the backend's `Outcome` (`Ok(value)` or `Err(message)`).
  - The display conditions of each panel are functions of its state.
- **Theme** (`ThemeContext`, `ThemeToggle`).
  - The start-up choice comes from the stored preference, else the system preference, else Light.
  - `setTheme` replaces the theme.
  - An effect mirrors the theme into the root element's `dark` class and into storage.
  - The toggle flips between the two themes.
- **Shared text operations** (`Text`). JavaScript's `trim` removes the
  ECMAScript WhiteSpace and LineTerminator characters. `startsWith` and
  `toLowerCase` are modelled as well.

The backend is an oracle: every answer it gives is an explicit `Outcome`
parameter.

Two behaviours of the code are easy to miss:

- The Word Finder shows "No words found" before any search once anything is typed, even white space alone, which is never searched (`WordSearch.ResultsAreaConditions`).
- The chat send guard also requires that a session exists (`Chat.SendGuard`).

## Model

| member | source | states |
|---|---|---|
| `Text.TrimSpec` | components/BoardAnalyzer.tsx:100 | `trim()` is empty exactly for white-space-only text; otherwise it starts and ends with a non-white-space character |
| `Text.TrimIdempotent` | components/BoardAnalyzer.tsx:100-104 | `trim()` is idempotent: a trimmed value is already in its final form |
| `Text.ToLower` | components/WordFinder.tsx:22 | lower-casing keeps the length, maps each character and leaves no upper-case ASCII letter |
| `Markdown.ProcessLine` | components/BoardAnalyzer.tsx:19-33 | `processLine`: heading prefixes first, then both substitutions, then a list item, a paragraph or nothing; its cases are stated by the lemmas below |
| `Markdown.ReplaceBold` | components/BoardAnalyzer.tsx:25 | the global non-greedy `**…**` replacement; see `BoldWraps`, `FindDoubleStarFirst` |
| `Markdown.ReplaceItalic` | components/BoardAnalyzer.tsx:26 | the global non-greedy `*…*` replacement; see `ItalicWraps`, `FindStarFirst`, `ItalicLeavesParity` |
| `Markdown.Emphasize` | components/BoardAnalyzer.tsx:24-26 | bold replacement, then italic replacement, on the same line |
| `Markdown.IsListItem` | components/BoardAnalyzer.tsx:40-41 | the loop's list test, on the raw trimmed line |
| `Markdown.HeadingsVerbatim` | components/BoardAnalyzer.tsx:20-22 | `### `, `## ` and `# ` lines become h3/h2/h1 around the rest of the raw line, with no emphasis substitution |
| `Markdown.BoldWraps` | components/BoardAnalyzer.tsx:25 | `**x**` becomes `<strong>x</strong>` for star-free single-line `x`; bold runs before italic, so the italic pass cannot break it |
| `Markdown.ItalicWraps` | components/BoardAnalyzer.tsx:26 | `*x*` becomes `<em>x</em>` for star-free single-line `x` |
| `Markdown.FindStarFirst` | components/BoardAnalyzer.tsx:26 | the italic search takes the nearest closing star, with no star or line terminator before it (non-greedy `.`), and finds none only when every star lies behind a line terminator |
| `Markdown.FindDoubleStarFirst` | components/BoardAnalyzer.tsx:25 | the bold search takes the nearest closing `**`: no `**` and no line terminator comes before it, and it finds none only when every `**` lies behind a line terminator |
| `Markdown.StarFreeUnchanged` | components/BoardAnalyzer.tsx:24-26 | text without stars passes both substitutions unchanged |
| `Markdown.ItalicLeavesParity` | components/BoardAnalyzer.tsx:26 | on a single line, the italic pass leaves as many stars as the parity of the stars it was given |
| `Markdown.BlankLineSilent` | components/BoardAnalyzer.tsx:30-32 | a white-space-only line emits nothing and is not a list line, so it closes an open list |
| `Markdown.PlainListItem` | components/BoardAnalyzer.tsx:28 | `* x` without further stars is a list line and becomes `<li>` around `x` with its trailing white space trimmed |
| `Markdown.ListLineFamilyAsParagraph` | components/BoardAnalyzer.tsx:24-41 | every line `* x*y`, with star-free single-line `x` and a `y` holding no `**` and not starting with `*`, is a list line for the loop, but its substituted form is `<em> x</em>` then `y` italicised, so it is emitted as `<p>…</p>`, not as `<li>` |
| `Markdown.QuirkEmphasis` | components/BoardAnalyzer.tsx:24-26 | bold leaves `* x*y` alone and italic pairs its first two stars |
| `Markdown.ListLineEmittedAsParagraph` | components/BoardAnalyzer.tsx:24-41 | the instance `* a *b*`: a list line for the loop, emitted as `<p><em> a </em>b*</p>` |
| `Markdown.QuirkLineEmphasis` | components/BoardAnalyzer.tsx:24-26 | the substituted form of `* a *b*` is `<em> a </em>b*` |
| `Markdown.SplitLines` | components/BoardAnalyzer.tsx:35 | `split('\n')` gives one piece more than there are line feeds, none holding a line feed |
| `Markdown.JoinSplit` | components/BoardAnalyzer.tsx:35 | joining the pieces of a split with line feeds gives back the text |
| `Markdown.SplitJoin` | components/BoardAnalyzer.tsx:35 | splitting the join of line-feed-free lines gives back the lines |
| `Markdown.LineStep` | components/BoardAnalyzer.tsx:43-51 | each line adds its list tag (open at a run's start, close after a run) and then its rewritten markup |
| `Markdown.ListTagPlacement` | components/BoardAnalyzer.tsx:40-48 | `<ul>` goes in front of a line exactly when it is a list line and the line before it is not; `</ul>` exactly when it is not and the line before it is |
| `Markdown.TextIsPieces` | components/BoardAnalyzer.tsx:39-51 | the text the loop has written after `n` lines is the flattened pieces of those lines |
| `Markdown.FinalClose` | components/BoardAnalyzer.tsx:53-55 | the whole output is the text for all lines plus `</ul>` exactly when the last line is a list line |
| `Markdown.RenderMarkdown` | components/BoardAnalyzer.tsx:35-57 | the loop with the `inList` flag produces the stateless piece definition, including the final `</ul>` |
| `Markdown.ListTagsBalanced` | components/BoardAnalyzer.tsx:39-56 | in the rendered pieces, `<ul>` and `</ul>` alternate from closed to closed: balanced and never nested |
| `Markdown.LinesInOrder` | components/BoardAnalyzer.tsx:39-52 | the rendered markup, list tags aside, is exactly each line's rewrite, in input order |
| `BoardAnalysis.FileRejection` | components/BoardAnalyzer.tsx:76-83 | the type check, then the size check, each with its message; see `FileAcceptance` |
| `BoardAnalysis.FileAcceptance` | components/BoardAnalyzer.tsx:61-83 | a file is accepted exactly when it is JPEG, PNG, GIF or WebP and at most 10485760 bytes; the type error is reported first |
| `BoardAnalysis.BoardAnalyzer.constructor` | components/BoardAnalyzer.tsx:66-71 | no image, empty letters, no result, not loading, no error |
| `BoardAnalysis.BoardAnalyzer.HandleFileChange` | components/BoardAnalyzer.tsx:73-93 | no file changes nothing; a refused file sets the error and keeps the image; an accepted one clears the error and becomes the image |
| `BoardAnalysis.FilterLetters` | components/BoardAnalyzer.tsx:155 | the filter keeps only ASCII letters, and keeps every one of them |
| `BoardAnalysis.FilterAppend` | components/BoardAnalyzer.tsx:155 | the filter works character by character, so it keeps the letters' order |
| `BoardAnalysis.FilterKeepsLetters` | components/BoardAnalyzer.tsx:155 | letters-only text passes the filter unchanged |
| `BoardAnalysis.FilterIdempotent` | components/BoardAnalyzer.tsx:155 | filtering is idempotent |
| `BoardAnalysis.BoardAnalyzer.EditLetters` | components/BoardAnalyzer.tsx:155 | the letters field only ever holds filtered text |
| `BoardAnalysis.AnalyzeRejection` | components/BoardAnalyzer.tsx:96-107 | the three checks of `handleAnalyze` in order, each with its message; see `AnalyzeChecks` |
| `BoardAnalysis.AnalyzeChecks` | components/BoardAnalyzer.tsx:96-107 | a request is made exactly with an image and 1..15 trimmed letters; the checks run in the order image, blank letters, too many letters |
| `BoardAnalysis.FilteredLettersChecks` | components/BoardAnalyzer.tsx:100-107 | for filtered letters, the letter checks are on the raw length |
| `BoardAnalysis.BoardAnalyzer.BeginAnalyze` | components/BoardAnalyzer.tsx:95-114 | a failed check only sets its error; otherwise loading starts, error and result are cleared and the image and untrimmed letters are sent |
| `BoardAnalysis.BoardAnalyzer.CompleteAnalyze` | components/BoardAnalyzer.tsx:114-120 | the analysis becomes the result or the message the error; loading ends |
| `BoardAnalysis.BoardAnalyzer.Analyze` | components/BoardAnalyzer.tsx:95-121 | after an accepted analysis, loading is over and exactly one of result and error is set |
| `BoardAnalysis.ResultPanel` | components/BoardAnalyzer.tsx:173-177 | nothing shows for an absent or empty result; white space alone shows the no-suggestions notice; anything else is rendered as is |
| `Chat.AiChat.constructor` | components/AiChat.tsx:9-12 | no session, an empty transcript, empty input, not loading |
| `Chat.AiChat.EditMessage` | components/AiChat.tsx:87 | the input field takes the typed text, and the transcript invariant is kept |
| `Chat.AiChat.InitChat` | components/AiChat.tsx:15-25 | after initialisation the transcript is exactly the greeting from the model |
| `Chat.SendGuard` | components/AiChat.tsx:32 | a send goes ahead exactly when the input is not blank, a session exists and no turn is loading |
| `Chat.AiChat.BeginSend` | components/AiChat.tsx:31-40 | a refused send changes nothing; an accepted one appends the trimmed user message, clears the input, starts loading and sends exactly that message's text |
| `Chat.ReplyContents` | components/AiChat.tsx:41-46 | the reply is always the model's: the answer on success, the fixed apology on failure |
| `Chat.AiChat.CompleteSend` | components/AiChat.tsx:41-49 | the reply is appended to the transcript and loading ends; the failure is absorbed |
| `Chat.AiChat.SendMessage` | components/AiChat.tsx:31-50 | a completed turn grows the transcript by the user message and then the reply; nothing earlier changes; transcripts stay alternating and start with the greeting |
| `WordSearch.WordFinder.constructor` | components/WordFinder.tsx:7-11 | the length starts at 7, everything else empty |
| `WordSearch.WordFinder.EditLetters` | components/WordFinder.tsx:49 | the letters field takes the typed text as is |
| `WordSearch.ParseInt` | components/WordFinder.tsx:61 | `parseInt(text, 10)`: leading white space, one optional sign, the longest digit run, NaN when there is none; see `ParseIntDecimal`, `LengthFallback` |
| `WordSearch.DigitPrefix` | components/WordFinder.tsx:61 | `parseInt` reads the longest run of digits and stops at the first non-digit |
| `WordSearch.ParseIntDecimal` | components/WordFinder.tsx:61 | `parseInt` reads back a decimal number, of either sign, whatever non-digit text follows it |
| `WordSearch.ParseLength` | components/WordFinder.tsx:61 | the stored length is never 0: NaN and 0 become 1 |
| `WordSearch.LengthFallback` | components/WordFinder.tsx:61 | a blank field, or one whose first non-blank character is neither a digit nor a sign, reads as NaN and stores 1 |
| `WordSearch.LengthUnbounded` | components/WordFinder.tsx:61-63 | any positive or negative whole number typed is stored as is; the 1..15 bounds are not enforced |
| `WordSearch.WordFinder.EditLength` | components/WordFinder.tsx:61 | the length field keeps the parsed value and so is never 0 |
| `WordSearch.WordFinder.BeginFind` | components/WordFinder.tsx:13-22 | blank letters only set the error; otherwise loading starts, error and results are cleared, and the trimmed lower-cased letters and the length are sent |
| `WordSearch.WordFinder.CompleteFind` | components/WordFinder.tsx:22-28 | the words become the results or the message the error; loading ends |
| `WordSearch.WordFinder.FindWords` | components/WordFinder.tsx:13-29 | after a search, either results hold the words or the error holds the message and results are empty |
| `WordSearch.WordFinder.OverlappingSearches` | components/WordFinder.tsx:13-35 | with no loading guard, a second search may start; each answer sets its own field on arrival, so a late failure leaves the other request's words in place and results and an error can show together; the final words and error are given for all four combinations of answers |
| `WordSearch.ResultsAreaConditions` | components/WordFinder.tsx:80-96 | the count heading and the "No words found" notice never show together; the notice shows before any search for white space alone, which trims to nothing and is never searched |
| `Validation.WordValidator.constructor` | components/WordValidator.tsx:8-11 | empty word, no result, not loading, no error |
| `Validation.WordValidator.EditWord` | components/WordValidator.tsx:46 | the word field takes the typed text as is |
| `Validation.WordValidator.BeginValidate` | components/WordValidator.tsx:13-22 | a blank word only sets the error; otherwise loading starts, error and result are cleared, and the trimmed lower-cased word is sent |
| `Validation.WordValidator.CompleteValidate` | components/WordValidator.tsx:22-28 | the record becomes the result or the message the error; loading ends |
| `Validation.WordValidator.ValidateWord` | components/WordValidator.tsx:13-29 | after a validation, either the result holds the record or the error holds the message and there is no result |
| `Validation.WordValidator.OverlappingValidations` | components/WordValidator.tsx:13-35 | with no loading guard, a second validation may start; each answer sets its own field on arrival, so a late failure leaves the other request's record in place and a verdict and an error can show together; the final record and error are given for all four combinations of answers |
| `Validation.VerdictContents` | components/WordValidator.tsx:63-65 | the verdict quotes the raw input and reads "a valid" exactly for a valid word |
| `Validation.WordValidator.Verdict` | components/WordValidator.tsx:62-66 | a verdict shows exactly when a result is present, quoting the current input rather than the word that was validated |
| `Validation.WordValidator.Definition` | components/WordValidator.tsx:67-69 | the definition shows exactly for a valid word with a non-empty definition |
| `ThemeContext.InitialTheme` | contexts/ThemeContext.tsx:12-26 | the lazy initial state of the provider; its cases are stated by `InitialThemeChoice` |
| `ThemeContext.InitialThemeChoice` | contexts/ThemeContext.tsx:12-26 | a stored "light" or "dark" is restored; otherwise a dark system preference gives Dark; otherwise, and always without a window, Light |
| `ThemeContext.StoredThemeRestored` | contexts/ThemeContext.tsx:14-33 | what the effect stores is restored on the next start whatever the system prefers |
| `ThemeContext.ThemeValueInjective` | contexts/ThemeContext.tsx:33 | the two themes are stored as different strings |
| `ThemeContext.ThemeProvider.constructor` | contexts/ThemeContext.tsx:11-26 | the initial theme comes from the stored value under `theme` and the system preference |
| `ThemeContext.ThemeProvider.SetTheme` | contexts/ThemeContext.tsx:36-38 | setting the theme replaces it |
| `ThemeContext.ThemeProvider.ApplyTheme` | contexts/ThemeContext.tsx:28-34 | afterwards the root has `dark` exactly in the dark theme and storage holds the theme; other classes and keys are kept |
| `ThemeContext.ThemeProvider.ChangeTheme` | contexts/ThemeContext.tsx:28-38 | a theme change and its effect leave the new theme in force and mirrored |
| `ThemeContext.UseTheme` | contexts/ThemeContext.tsx:47-53 | outside a provider the hook fails with the fixed message; inside it returns the provider's value |
| `ThemeToggle.ToggleTarget` | components/ThemeToggle.tsx:10-14 | the theme a click selects; see `ToggleFlips` |
| `ThemeToggle.Label` | components/ThemeToggle.tsx:19 | the button's label; see `LabelAndIcon` |
| `ThemeToggle.IconOf` | components/ThemeToggle.tsx:20 | the button's icon; see `LabelAndIcon` |
| `ThemeToggle.ToggleFlips` | components/ThemeToggle.tsx:10-14 | a click always changes the theme and two clicks restore it |
| `ThemeToggle.LabelAndIcon` | components/ThemeToggle.tsx:19-20 | the label names the theme a click selects; it reads "Switch to Light Theme" and the sun shows exactly while dark |
| `ThemeToggle.Toggle` | components/ThemeToggle.tsx:12-14 | a click sets the provider's theme to the other one |

## Left out

- services/geminiService.ts is not part of this model. Prompts, SDK calls and JSON parsing are replaced by the `Outcome` each `Complete*` method receives. A malformed answer and a transport failure are the same `Err`.
- Chat session creation (`createChatSession`) is not modelled as able to fail; `hasSession` records only whether it happened.
- Reading the image into base64 (`fileToGenerativePart`, FileReader) and the preview data URL are browser I/O. A file is modelled by its MIME type and size.
- React scheduling is not modelled. This covers effect timing, `scrollIntoView` and keydown wiring. Handlers are discrete begin/complete steps. Interleavings appear only where the code allows two requests in flight: two searches (`WordSearch.WordFinder.OverlappingSearches`) and two validations (`Validation.WordValidator.OverlappingValidations`), both through the Enter key.
- Chat.AiChat.InitChat: requires that no session exists yet, because the mount effect runs once. Chat.AiChat.CompleteSend requires a pending turn, because only a started send resumes.
- The renderer does no HTML escaping, and the model claims nothing about the safety of the markup it inserts.
- localStorage, `matchMedia` and the root element's class list are inputs and outputs. The stored map and the class set are fields the effect writes.
- The HTML attributes `maxLength`, `min` and `max` on the inputs are enforced by the browser, not by the handlers, and are not modelled.
- Text.ToLower: lower-cases ASCII letters only; JavaScript's `toLowerCase` also maps other Unicode upper-case letters.
- WordSearch.ParseInt: returns an exact integer. JavaScript's `parseInt` returns a double, which rounds digit runs beyond 2^53. It also yields `-0` for `-0`, which `|| 1` treats like 0, as the model does.
- The `Theme` enum is not defined in the types.ts shown. Its stored string values are taken to be "light" and "dark".
- App.tsx, Tabs, DefinitionModal, ErrorBoundary, Header, the icons, spinner texts and all JSX and CSS are views with no logic worth stating.
